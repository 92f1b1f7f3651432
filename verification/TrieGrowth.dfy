/** How far the backing vector of a slab grows: to the most nodes the trie ever had at once.
    Freed slots are reused before the vector grows, and it never shrinks. */
module TrieGrowth {
  import opened Prefixes
  import opened Trie
  import opened TrieStates

  lemma {:induction false} AllocatedExtent(p: Pool, n: nat)
    ensures var q := AllocatedTimes(p, n);
            && q.extent == Max(p.extent, p.extent + n - Min(n, |p.free|))
            && |q.free| == |p.free| - Min(n, |p.free|)
    decreases n
  {
    if n > 0 {
      AllocatedExtent(Allocated(p), n - 1);
    }
  }

  lemma Occupancy(s: State)
    requires Inv(s)
    ensures Size(s.tree) + 1 + |s.pool.free| == s.pool.extent
  {
    Tallies(s);
  }

  /** Only an announcement touches the vector, and then as far as the free list falls short. */
  lemma StepPool(s: State, op: Op)
    ensures var p, q := s.pool, Step(s, op).pool;
            && q.extent >= p.extent
            && (q.extent == p.extent || q.free == [])
  {
    if op.Announce? {
      AllocatedExtent(s.pool, Needed(s.tree, op.key));
    }
  }

  /** One mutation needs a longer vector only for the nodes that it leaves in use. */
  lemma StepExtent(s: State, op: Op)
    requires Inv(s)
    ensures Step(s, op).pool.extent == Max(s.pool.extent, Size(Step(s, op).tree) + 1)
  {
    var u := Step(s, op);
    StepPool(s, op);
    assert Size(u.tree) + 1 + |u.pool.free| == u.pool.extent by {
      StepInv(s, op);
      Occupancy(u);
    }
  }

  /** A mutation finds all the slots it needs exactly when the vector may grow as far as it will. */
  lemma StepFits(s: State, op: Op, limit: nat)
    requires Inv(s) && s.pool.extent <= limit
    ensures Step(s, op).pool.extent <= limit
            <==> !op.Announce? || Needed(s.tree, op.key) <= |s.pool.free| + (limit - s.pool.extent)
  {
    if op.Announce? {
      AllocatedExtent(s.pool, Needed(s.tree, op.key));
    }
  }

  /** The most nodes in use at any point of a run. */
  function PeakSize(s: State, ops: seq<Op>): nat
    decreases |ops|
  {
    if ops == [] then Size(s.tree) else Max(Size(s.tree), PeakSize(Step(s, ops[0]), ops[1..]))
  }

  lemma PeakIncludesStart(s: State, ops: seq<Op>)
    ensures PeakSize(s, ops) >= Size(s.tree)
  {
  }

  /** However many updates a run has, and however slots are recycled, the vector's length is
      the high-water mark of the nodes in use. */
  lemma {:induction false} HighWater(s: State, ops: seq<Op>)
    requires Inv(s)
    ensures Run(s, ops).pool.extent == Max(s.pool.extent, PeakSize(s, ops) + 1)
    decreases |ops|
  {
    assert Size(s.tree) < s.pool.extent by {
      Occupancy(s);
    }
    if ops != [] {
      HighWaterStep(s, ops[0]);
      PeakIncludesStart(Step(s, ops[0]), ops[1..]);
      HighWater(Step(s, ops[0]), ops[1..]);
    }
  }

  lemma HighWaterStep(s: State, op: Op)
    requires Inv(s)
    ensures Inv(Step(s, op))
    ensures Step(s, op).pool.extent == Max(s.pool.extent, Size(Step(s, op).tree) + 1)
  {
    StepInv(s, op);
    StepExtent(s, op);
  }

  /** A run that ends within a bound was within it all along. */
  lemma {:induction false} ExtentGrows(s: State, ops: seq<Op>)
    ensures Run(s, ops).pool.extent >= s.pool.extent
    decreases |ops|
  {
    if ops != [] {
      StepPool(s, ops[0]);
      ExtentGrows(Step(s, ops[0]), ops[1..]);
    }
  }
}
