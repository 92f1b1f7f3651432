/** A trie together with its slab's bookkeeping, and runs of mutations.

    The invariant `Inv` is the accounting claim: the slots ever handed out are split
    exactly between the nodes reachable from the root and the free list. */
module TrieStates {
  import opened Prefixes
  import opened Trie
  import opened TrieSets

  datatype Op =
    | Announce(key: PrefixKey, ts: nat)
    | Retract(key: PrefixKey, ts: nat)
    | SweepAll

  predicate Announces(ops: seq<Op>) {
    forall op | op in ops :: op.Announce?
  }

  /** A slab's allocator: the free list is a stack, and the slab grows when it is empty.
      `extent` is the length of the backing vector, reserved slot included. */
  datatype Pool = Pool(free: seq<nat>, extent: nat)

  function NextSlot(p: Pool): nat {
    if p.free == [] then p.extent else p.free[|p.free| - 1]
  }

  function Allocated(p: Pool): Pool {
    if p.free == [] then p.(extent := p.extent + 1) else p.(free := p.free[..|p.free| - 1])
  }

  /** The free list is a stack: the slot freed last is taken first, and what lies below it stays. */
  lemma TakesLastFreed(more: seq<nat>, x: nat, extent: nat)
    ensures NextSlot(Pool(more + [x], extent)) == x
    ensures Allocated(Pool(more + [x], extent)) == Pool(more, extent)
    ensures NextSlot(Pool([], extent)) == extent && Allocated(Pool([], extent)) == Pool([], extent + 1)
  {
    assert (more + [x])[..|more|] == more;
  }

  function AllocatedTimes(p: Pool, n: nat): Pool
    decreases n
  {
    if n == 0 then p else AllocatedTimes(Allocated(p), n - 1)
  }

  datatype State = State(tree: Tree, pool: Pool, count: int, sweeps: nat)

  const INITIAL := State(Empty, Pool([], 1), 0, 0)

  function InsertInto(s: State, k: Key, ts: nat): Outcome {
    Insert(s.tree, k, ts, NextSlot(s.pool), NextSlot(Allocated(s.pool)))
  }

  function Step(s: State, op: Op): State {
    match op
    case Announce(k, ts) =>
      State(InsertInto(s, k, ts).tree, AllocatedTimes(s.pool, Needed(s.tree, k)),
            s.count + (if k in Announced(s.tree) then 0 else 1), s.sweeps)
    case Retract(k, ts) =>
      State(Withdraw(s.tree, k, ts).tree, s.pool,
            s.count - (if k in Announced(s.tree) then 1 else 0), s.sweeps)
    case SweepAll =>
      State(Sweep(s.tree), s.pool.(free := s.pool.free + Freed(s.tree)), s.count, s.sweeps + 1)
  }

  function Run(s: State, ops: seq<Op>): State
    decreases |ops|
  {
    if ops == [] then s else Run(Step(s, ops[0]), ops[1..])
  }

  // ----- accounting -----

  /** Slots 1 and up to the extent are either in use or free, never both. */
  ghost predicate PoolOk(p: Pool, used: set<nat>) {
    && 1 <= p.extent
    && NoDuplicates(p.free)
    && used !! Elements(p.free)
    && forall i: nat :: i in used || i in Elements(p.free) <==> 1 <= i < p.extent
  }

  ghost predicate Accounted(s: State) {
    Distinct(s.tree) && PoolOk(s.pool, Slots(s.tree))
  }

  ghost predicate Inv(s: State) {
    WellFormed(s.tree) && Accounted(s) && s.count == AnnouncedCount(s.tree)
  }

  lemma AllocFacts(p: Pool, used: set<nat>)
    requires PoolOk(p, used)
    ensures NextSlot(p) !in used + {0}
    ensures PoolOk(Allocated(p), used + {NextSlot(p)})
  {
    if p.free == [] {
      assert p.extent !in used && p.extent !in Elements(p.free);
    } else {
      var rest, last := Allocated(p).free, p.free[|p.free| - 1];
      assert p.free == rest + [last];
      ElementsConcat(rest, [last]);
      assert last in Elements(p.free);
      assert last !in Elements(rest);
    }
  }

  lemma InsertAccounted(s: State, k: PrefixKey, ts: nat)
    requires Accounted(s)
    ensures Accounted(Step(s, Announce(k, ts)))
    ensures NextSlot(s.pool) != NextSlot(Allocated(s.pool))
    ensures {NextSlot(s.pool), NextSlot(Allocated(s.pool))} !! Slots(s.tree) + {0}
  {
    var p, used := s.pool, Slots(s.tree);
    var a, b := NextSlot(p), NextSlot(Allocated(p));
    AllocFacts(p, used);
    AllocFacts(Allocated(p), used + {a});
    NeededAtMostTwo(s.tree, k);
    InsertSlots(s.tree, k, ts, a, b);
    assert AllocatedTimes(p, 1) == Allocated(p);
    assert AllocatedTimes(p, 2) == Allocated(Allocated(p));
    assert used + {a} + {b} == used + {a, b};
    assert used + {} == used;
    assert a in used + {a};
  }

  lemma SweepAccounted(s: State)
    requires Accounted(s)
    ensures Accounted(Step(s, SweepAll))
  {
    SweepSlots(s.tree);
    FreedOnce(s.tree);
    ElementsConcat(s.pool.free, Freed(s.tree));
    NoDuplicatesConcat(s.pool.free, Freed(s.tree));
  }

  lemma {:induction false} NeededAtMostTwo(t: Tree, k: Key)
    ensures Needed(t, k) <= 2
  {
    if t.Bin? && t.key != k && t.key <= k {
      NeededAtMostTwo(Child(t, k[|t.key|]), k);
    }
  }

  lemma StepInv(s: State, op: Op)
    requires Inv(s)
    ensures Inv(Step(s, op))
  {
    match op
    case Announce(k, ts) =>
      InsertAccounted(s, k, ts);
      InsertWellFormed(s.tree, k, ts, NextSlot(s.pool), NextSlot(Allocated(s.pool)), []);
      InsertCount(s.tree, k, ts, NextSlot(s.pool), NextSlot(Allocated(s.pool)));
    case Retract(k, ts) =>
      WithdrawSlots(s.tree, k, ts);
      WithdrawWellFormed(s.tree, k, ts);
      WithdrawCount(s.tree, k, ts);
    case SweepAll =>
      SweepAccounted(s);
      SweepWellFormed(s.tree, []);
      SweepAnnounced(s.tree);
  }

  /** Every reachable state satisfies the invariant. */
  lemma {:induction false} RunInv(s: State, ops: seq<Op>)
    requires Inv(s)
    ensures Inv(Run(s, ops))
    decreases |ops|
  {
    if ops != [] {
      StepInv(s, ops[0]);
      RunInv(Step(s, ops[0]), ops[1..]);
    }
  }

  function Range(lo: nat, hi: nat): (r: set<nat>)
    ensures forall i: nat :: i in r <==> lo <= i < hi
    ensures lo <= hi ==> |r| == hi - lo
  {
    if lo >= hi then {} else Range(lo, hi - 1) + {hi - 1}
  }

  /** The tallies are what they claim to be; the live-node count stays below the extent,
      so a tally kept in the width of a slot index cannot overflow. */
  lemma Tallies(s: State)
    requires Inv(s)
    ensures Size(s.tree) == s.pool.extent - 1 - |s.pool.free|
    ensures s.count == |Announced(s.tree)|
    ensures 0 <= s.count <= Size(s.tree) < s.pool.extent
  {
    SlotsCard(s.tree);
    AnnouncedCard(s.tree);
    ElementsCard(s.pool.free);
    assert Slots(s.tree) + Elements(s.pool.free) == Range(1, s.pool.extent);
    assert |Slots(s.tree) + Elements(s.pool.free)| == |Slots(s.tree)| + |Elements(s.pool.free)|;
    AnnouncedAtMostSize(s.tree);
  }

  lemma {:induction false} AnnouncedAtMostSize(t: Tree)
    ensures AnnouncedCount(t) <= Size(t)
  {
    if t.Bin? {
      AnnouncedAtMostSize(t.left);
      AnnouncedAtMostSize(t.right);
    }
  }

  lemma {:induction false} ElementsCard(s: seq<nat>)
    requires NoDuplicates(s)
    ensures |Elements(s)| == |s|
  {
    if s != [] {
      var front, last := s[..|s| - 1], s[|s| - 1];
      ElementsCard(front);
      assert Elements(s) == Elements(front) + {last} by {
        assert s == front + [last];
      }
      assert last !in Elements(front);
    }
  }

  // ----- meaning -----

  /** What an operation means for the set of announced prefixes. */
  function Effect(a: set<Key>, op: Op): set<Key> {
    match op
    case Announce(k, _) => a + {k}
    case Retract(k, _) => a - {k}
    case SweepAll => a
  }

  function Effects(a: set<Key>, ops: seq<Op>): set<Key>
    decreases |ops|
  {
    if ops == [] then a else Effects(Effect(a, ops[0]), ops[1..])
  }

  lemma StepAnnounced(s: State, op: Op)
    requires Inv(s)
    ensures Announced(Step(s, op).tree) == Effect(Announced(s.tree), op)
  {
    match op
    case Announce(k, ts) => InsertAnnounced(s.tree, k, ts, NextSlot(s.pool), NextSlot(Allocated(s.pool)));
    case Retract(k, ts) => WithdrawAnnounced(s.tree, k, ts);
    case SweepAll => SweepAnnounced(s.tree);
  }

  lemma {:induction false} RunAnnounced(s: State, ops: seq<Op>)
    requires Inv(s)
    ensures Announced(Run(s, ops).tree) == Effects(Announced(s.tree), ops)
    decreases |ops|
  {
    if ops != [] {
      StepInv(s, ops[0]);
      StepAnnounced(s, ops[0]);
      RunAnnounced(Step(s, ops[0]), ops[1..]);
    }
  }

  lemma {:induction false} EffectsConcat(a: set<Key>, ops: seq<Op>, more: seq<Op>)
    ensures Effects(a, ops + more) == Effects(Effects(a, ops), more)
    decreases |ops|
  {
    if ops == [] {
      assert ops + more == more;
    } else {
      EffectsConcat(Effect(a, ops[0]), ops[1..], more);
      assert (ops + more)[1..] == ops[1..] + more;
    }
  }

  lemma {:induction false} RunConcat(s: State, ops: seq<Op>, more: seq<Op>)
    ensures Run(s, ops + more) == Run(Run(s, ops), more)
    decreases |ops|
  {
    if ops == [] {
      assert ops + more == more;
    } else {
      var rest := ops[1..];
      assert (ops + more)[0] == ops[0] && (ops + more)[1..] == rest + more;
      RunConcat(Step(s, ops[0]), rest, more);
    }
  }

  lemma RunOne(s: State, op: Op)
    ensures Run(s, [op]) == Step(s, op)
    ensures forall a :: Effects(a, [op]) == Effect(a, op)
  {
    assert [op][1..] == [];
  }
}
