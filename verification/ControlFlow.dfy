/** Control flow graphs and post-dominators: where the simulator takes reconvergence pcs from. */
module ControlFlow {
  import opened SimtStacks

  /** Successors of every instruction, and the instructions that can leave the program. The
      distinguished exit block is no instruction; a branch that has no other post-dominator
      reconverges at `final`, the return pc on the call stack, which may well be the number of
      some instruction: for a kernel it is 0. */
  datatype Cfg = Cfg(succ: map<Pc, set<Pc>>, leaves: set<Pc>, final: Pc)

  ghost predicate Edge(g: Cfg, p: Pc, q: Pc) {
    p in g.succ && q in g.succ[p]
  }

  ghost predicate IsPath(g: Cfg, path: seq<Pc>) {
    path != [] && forall i | 0 <= i < |path| - 1 :: Edge(g, path[i], path[i + 1])
  }

  /** A way from `p` out of the program. */
  ghost predicate IsExitPath(g: Cfg, path: seq<Pc>, p: Pc) {
    IsPath(g, path) && path[0] == p && path[|path| - 1] in g.leaves
  }

  ghost predicate Postdominates(g: Cfg, q: Pc, p: Pc) {
    forall path | IsExitPath(g, path, p) :: q in path
  }

  ghost predicate StrictlyPostdominates(g: Cfg, q: Pc, p: Pc) {
    q != p && Postdominates(g, q, p)
  }

  /** The closest strict post-dominator: all others post-dominate it. */
  ghost predicate IsImmediate(g: Cfg, r: Pc, p: Pc) {
    StrictlyPostdominates(g, r, p) && forall q | StrictlyPostdominates(g, q, p) :: Postdominates(g, q, r)
  }

  /** Where a branch at `p` reconverges: at its immediate post-dominator, or at the exit if no
      instruction post-dominates it. */
  ghost predicate IsReconvergence(g: Cfg, r: Pc, p: Pc) {
    IsImmediate(g, r, p) || (r == g.final && forall q :: !StrictlyPostdominates(g, q, p))
  }

  /** Instructions lead to instructions, the program can always be left, and a branch to the pc
      that stands for the exit reconverges there. */
  ghost predicate WellFormed(g: Cfg) {
    && NULL_PC !in g.succ && g.final != NULL_PC
    && (forall p, q | Edge(g, p, q) :: q in g.succ)
    && (forall p | p in g.succ :: exists path :: IsExitPath(g, path, p))
    && (forall p | Edge(g, p, g.final) && |g.succ[p]| > 1 :: IsReconvergence(g, g.final, p))
  }

  /** No instruction jumps to the pc that stands for the exit. */
  ghost predicate NoJumpToExit(g: Cfg) {
    forall p :: !Edge(g, p, g.final)
  }

  /** Strict post-dominators of an instruction post-dominate its successors. */
  lemma SuccessorPostdominated(g: Cfg, q: Pc, p: Pc, s: Pc)
    requires StrictlyPostdominates(g, q, p) && Edge(g, p, s)
    ensures Postdominates(g, q, s)
  {
    forall path | IsExitPath(g, path, s) ensures q in path {
      var longer := [p] + path;
      assert forall i | 0 < i < |longer| - 1 :: longer[i] == path[i - 1] && longer[i + 1] == path[i];
      assert IsExitPath(g, longer, p);
    }
  }

  /** Two different pcs do not post-dominate each other. */
  lemma {:induction false} Antisymmetric(g: Cfg, a: Pc, b: Pc, path: seq<Pc>)
    requires Postdominates(g, a, b) && Postdominates(g, b, a) && IsExitPath(g, path, a)
    ensures a == b
    decreases |path|
  {
    if a != b {
      var i :| 0 <= i < |path| && path[i] == b;
      var rest := path[i..];
      forall k | 0 <= k < |rest| - 1 ensures Edge(g, rest[k], rest[k + 1]) {
        assert Edge(g, path[i + k], path[i + k + 1]);
      }
      assert IsExitPath(g, rest, b);
      Antisymmetric(g, b, a, rest);
    }
  }

  /** A strict post-dominator that is a direct successor is the immediate one. */
  lemma NearestIsImmediate(g: Cfg, q: Pc, r: Pc, p: Pc)
    requires WellFormed(g) && StrictlyPostdominates(g, q, p) && Edge(g, p, q) && IsReconvergence(g, r, p)
    ensures r == q
  {
    SuccessorPostdominated(g, r, p, q);
    var path :| IsExitPath(g, path, q);
    Antisymmetric(g, q, r, path);
  }

  /** Nothing strictly post-dominates an instruction that can leave the program. */
  lemma LeavingIsOpen(g: Cfg, q: Pc, p: Pc)
    requires p in g.leaves
    ensures !StrictlyPostdominates(g, q, p)
  {
    assert IsExitPath(g, [p], p);
  }

  /** A strict post-dominator is an instruction that others lead to. */
  lemma PostdominatorIsReal(g: Cfg, q: Pc, p: Pc)
    requires WellFormed(g) && p in g.succ && StrictlyPostdominates(g, q, p)
    ensures q in g.succ && q != NULL_PC
  {
    var path :| IsExitPath(g, path, p);
    var i :| 0 <= i < |path| && path[i] == q;
    assert Edge(g, path[i - 1], path[i]);
  }

  lemma ReconvergenceIsReal(g: Cfg, r: Pc, p: Pc)
    requires WellFormed(g) && p in g.succ && IsReconvergence(g, r, p)
    ensures r != NULL_PC && (r == g.final || StrictlyPostdominates(g, r, p))
  {
    if IsImmediate(g, r, p) {
      PostdominatorIsReal(g, r, p);
    }
  }

  /** A branch has one reconvergence pc. */
  lemma OneReconvergence(g: Cfg, q: Pc, r: Pc, p: Pc)
    requires WellFormed(g) && p in g.succ && IsReconvergence(g, q, p) && IsReconvergence(g, r, p)
    ensures q == r
  {
    if IsImmediate(g, q, p) && IsImmediate(g, r, p) {
      PostdominatorIsReal(g, q, p);
      var path :| IsExitPath(g, path, q);
      Antisymmetric(g, q, r, path);
    }
  }
}
