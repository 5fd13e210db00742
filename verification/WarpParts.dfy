/** The parts a warp is split into when it accesses memory. */
module WarpParts {
  /** First thread of the `p`-th part, for parts of `size` threads. */
  function Start(p: nat, size: nat): nat {
    if p == 0 then 0 else Start(p - 1, size) + size
  }

  lemma {:induction false} StartIsProduct(p: nat, size: nat)
    ensures Start(p, size) == p * size
  {
    if p > 0 {
      StartIsProduct(p - 1, size);
      assert p * size == (p - 1) * size + size;
    }
  }

  lemma {:induction false} StartMonotone(p: nat, q: nat, size: nat)
    requires p <= q
    ensures Start(p, size) <= Start(q, size)
  {
    if p < q {
      StartMonotone(p, q - 1, size);
    }
  }

  /** The parts fit into the warp, and fill it when they divide it evenly. */
  lemma PartsFit(parts: nat, warpSize: nat)
    requires parts > 0
    ensures Start(parts, warpSize / parts) <= warpSize
    ensures warpSize % parts == 0 ==> Start(parts, warpSize / parts) == warpSize
  {
    StartIsProduct(parts, warpSize / parts);
  }
}
