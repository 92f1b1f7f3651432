/** Which slots a mutation reports as dirty, against which slots it changes. */
module TrieDirty {
  import opened Prefixes
  import opened Trie
  import opened TrieSets
  import opened TrieStates

  /** The contents of one slot. */
  datatype Entry = Entry(child0: nat, child1: nat, key: Key, announced: bool, ts: nat)

  function EntryOf(t: Tree): Entry
    requires t.Bin?
  {
    Entry(RootSlot(t.left), RootSlot(t.right), t.key, t.announced, t.ts)
  }

  function EntryAt(t: Tree, i: nat): Entry
    requires i in Slots(t)
  {
    if i == t.slot then EntryOf(t)
    else if i in Slots(t.left) then EntryAt(t.left, i)
    else EntryAt(t.right, i)
  }

  lemma EntryInChild(t: Tree, b: bool, i: nat)
    requires Distinct(t) && t.Bin? && i in Slots(Child(t, b))
    ensures i in Slots(t) && EntryAt(t, i) == EntryAt(Child(t, b), i)
    ensures i != t.slot && i !in Slots(Child(t, !b))
  {
  }

  /** Slot `i` became reachable, or was and now holds something else. */
  ghost predicate Changed(t: Tree, u: Tree, i: nat) {
    i in Slots(u) && (i !in Slots(t) || EntryAt(t, i) != EntryAt(u, i))
  }

  /** Replacing one branch: changes are those in the branch and possibly the root. */
  lemma BranchChanged(t: Tree, u: Tree, b: bool, i: nat)
    requires t.Bin? && u.Bin? && Distinct(t) && Distinct(u) && t.slot == u.slot
    requires Child(t, !b) == Child(u, !b)
    requires Slots(Child(u, b)) !! Slots(t) - Slots(Child(t, b))
    ensures Changed(t, u, i) <==>
            if i == t.slot then EntryOf(t) != EntryOf(u) else Changed(Child(t, b), Child(u, b), i)
  {
    Parts(t, b);
    Parts(u, b);
    if i in Slots(Child(u, b)) {
      EntryInChild(u, b, i);
      if i in Slots(Child(t, b)) {
        EntryInChild(t, b, i);
      }
    } else if i in Slots(Child(u, !b)) {
      EntryInChild(u, !b, i);
      EntryInChild(t, !b, i);
    }
  }

  // ----- insert and withdraw -----

  /** The report names every changed slot, each once, and apart from the target (which is
      reported even when it is announced again as it was) nothing else. */
  ghost predicate Exact(t: Tree, o: Outcome) {
    && NoDuplicates(o.dirty)
    && o.target in o.dirty
    && (forall i :: Changed(t, o.tree, i) ==> i in o.dirty)
    && (forall i :: i in o.dirty ==> i == o.target || Changed(t, o.tree, i))
  }

  lemma DirtyWithin(t: Tree, o: Outcome)
    requires Exact(t, o) && o.target in Slots(o.tree)
    ensures Elements(o.dirty) <= Slots(o.tree)
  {
  }

  /** The target holds the announced prefix; its slot kept its bytes only if the prefix was
      announced already, at the same timestamp. */
  lemma {:induction false} InsertTarget(t: Tree, k: Key, ts: nat, leaf: nat, split: nat)
    requires Distinct(t) && leaf != split && {leaf, split} !! Slots(t) + {0}
    ensures var o := Insert(t, k, ts, leaf, split);
            var n := AtKey(t, k);
            && o.target in Slots(o.tree)
            && EntryAt(o.tree, o.target).key == k && EntryAt(o.tree, o.target).announced
            && o.target == (if n.Bin? then n.slot else leaf)
            && (Changed(t, o.tree, o.target) <==> !(n.Bin? && n.announced && n.ts == ts))
  {
    var o := Insert(t, k, ts, leaf, split);
    InsertSlots(t, k, ts, leaf, split);
    if t.Empty? || t.key == k {
    } else if t.key <= k {
      var b := k[|t.key|];
      Parts(t, b);
      DistinctParts(t, b);
      InsertTarget(Child(t, b), k, ts, leaf, split);
      InsertSlots(Child(t, b), k, ts, leaf, split);
      EntryInChild(o.tree, b, o.target);
      BranchChanged(t, o.tree, b, o.target);
    } else if k <= t.key {
      PromoteSets(t, k, ts, leaf);
    } else {
      SplitSets(t, k, ts, leaf, split);
      var b := SplitChildren(t, k, ts, leaf, split);
      EntryInChild(o.tree, !b, leaf);
    }
  }

  lemma PromoteExact(t: Tree, k: Key, ts: nat, leaf: nat, split: nat)
    requires Distinct(t) && t.Bin? && k < t.key && leaf !in Slots(t) + {0}
    ensures Exact(t, Insert(t, k, ts, leaf, split))
  {
    var u, b := Promote(t, k, ts, leaf), t.key[|k|];
    PromoteSets(t, k, ts, leaf);
    assert Child(u, b) == t && Child(u, !b) == Empty;
    forall i | i in Slots(t) ensures EntryAt(u, i) == EntryAt(t, i) {
      EntryInChild(u, b, i);
    }
  }

  lemma SplitExact(t: Tree, k: Key, ts: nat, leaf: nat, split: nat)
    requires Distinct(t) && t.Bin? && !(t.key <= k) && !(k <= t.key)
    requires leaf != split && {leaf, split} !! Slots(t) + {0}
    ensures Exact(t, Insert(t, k, ts, leaf, split))
  {
    var b := SplitChildren(t, k, ts, leaf, split);
    var u := SplitOff(t, k, ts, leaf, split);
    SplitSets(t, k, ts, leaf, split);
    forall i | i in Slots(t) ensures EntryAt(u, i) == EntryAt(t, i) {
      EntryInChild(u, b, i);
    }
  }

  lemma {:induction false} InsertExact(t: Tree, k: Key, ts: nat, leaf: nat, split: nat)
    requires Distinct(t) && leaf != split && {leaf, split} !! Slots(t) + {0}
    ensures Exact(t, Insert(t, k, ts, leaf, split))
  {
    if t.Empty? {
      LeafParts(leaf, k, ts);
    } else if t.key == k {
      InsertSlots(t, k, ts, leaf, split);
      forall i | i in Slots(t) && i != t.slot
        ensures EntryAt(Insert(t, k, ts, leaf, split).tree, i) == EntryAt(t, i)
      {
      }
    } else if t.key <= k {
      var b := k[|t.key|];
      var o, sub := Insert(t, k, ts, leaf, split), Insert(Child(t, b), k, ts, leaf, split);
      Parts(t, b);
      DistinctParts(t, b);
      InsertExact(Child(t, b), k, ts, leaf, split);
      InsertTarget(Child(t, b), k, ts, leaf, split);
      InsertSlots(Child(t, b), k, ts, leaf, split);
      InsertSlots(t, k, ts, leaf, split);
      DirtyWithin(Child(t, b), sub);
      assert o.dirty == sub.dirty + (if EntryOf(t) != EntryOf(o.tree) then [t.slot] else []);
      ExtendExact(t, o, b, sub);
    } else if k <= t.key {
      PromoteExact(t, k, ts, leaf, split);
    } else {
      SplitExact(t, k, ts, leaf, split);
    }
  }

  /** A branch's exact report, extended with the root if and only if that changed. */
  lemma ExtendExact(t: Tree, o: Outcome, b: bool, sub: Outcome)
    requires t.Bin? && o.tree.Bin? && Distinct(t) && Distinct(o.tree) && t.slot == o.tree.slot
    requires Child(t, !b) == Child(o.tree, !b) && Child(o.tree, b) == sub.tree
    requires Slots(sub.tree) !! Slots(t) - Slots(Child(t, b))
    requires Exact(Child(t, b), sub) && sub.target in Slots(sub.tree) && o.target == sub.target
    requires o.dirty == sub.dirty + (if EntryOf(t) != EntryOf(o.tree) then [t.slot] else [])
    ensures Exact(t, o)
  {
    DirtyWithin(Child(t, b), sub);
    DistinctParts(o.tree, b);
    assert t.slot !in Elements(sub.dirty);
    NoDuplicatesConcat(sub.dirty, if EntryOf(t) != EntryOf(o.tree) then [t.slot] else []);
    forall i ensures Changed(t, o.tree, i) ==> i in o.dirty
      ensures i in o.dirty ==> i == o.target || Changed(t, o.tree, i)
    {
      BranchChanged(t, o.tree, b, i);
    }
  }

  lemma {:induction false} WithdrawExact(t: Tree, k: Key, ts: nat)
    requires WellFormed(t) && Distinct(t) && k in Announced(t)
    ensures var o := Withdraw(t, k, ts);
            Exact(t, o) && Changed(t, o.tree, o.target)
  {
    AnnouncedOnPath(t, k);
    WithdrawSlots(t, k, ts);
    var o := Withdraw(t, k, ts);
    if t.key == k {
      forall i | i in Slots(t) && i != t.slot ensures EntryAt(o.tree, i) == EntryAt(t, i) {
      }
    } else {
      var b := k[|t.key|];
      var sub := Withdraw(Child(t, b), k, ts);
      Parts(t, b);
      DistinctParts(t, b);
      WithdrawExact(Child(t, b), k, ts);
      WithdrawFinds(Child(t, b), k, ts);
      WithdrawSlots(Child(t, b), k, ts);
      WithdrawWellFormed(Child(t, b), k, ts);
      assert o.dirty == sub.dirty + (if EntryOf(t) != EntryOf(o.tree) then [t.slot] else []);
      ExtendExact(t, o, b, sub);
      BranchChanged(t, o.tree, b, o.target);
    }
  }

  // ----- sweep -----

  lemma SweepDirtyElements(t: Tree, parent: nat)
    requires t.Bin?
    ensures Elements(SweepDirty(t, parent))
            == Elements(SweepDirty(t.left, t.slot)) + Elements(SweepDirty(t.right, t.slot))
               + (if Collapses(t) && parent != 0 then {parent} else {})
  {
    var l, r := SweepDirty(t.left, t.slot), SweepDirty(t.right, t.slot);
    ElementsConcat(l, r);
    ElementsConcat(l + r, if Collapses(t) && parent != 0 then [parent] else []);
  }

  lemma {:induction false} SweepDirtyWithin(t: Tree, parent: nat)
    requires Distinct(t) && parent !in Slots(t)
    ensures Elements(SweepDirty(t, parent)) <= Slots(t) + {parent}
    ensures parent in Elements(SweepDirty(t, parent)) <==> Collapses(t) && parent != 0
  {
    if t.Bin? {
      SweepDirtyWithin(t.left, t.slot);
      SweepDirtyWithin(t.right, t.slot);
      SweepDirtyElements(t, parent);
    }
  }

  /** A sweep changes the root slot of a subtree exactly when it collapses the subtree. */
  lemma SweepRoot(t: Tree)
    requires Distinct(t)
    ensures RootSlot(Sweep(t)) != RootSlot(t) <==> Collapses(t)
    ensures t.Bin? && !Collapses(t) ==> Sweep(t).Bin? && Sweep(t).slot == t.slot
  {
    if t.Bin? {
      SweepSlots(t.left);
      SweepSlots(t.right);
      var l, r := Sweep(t.left), Sweep(t.right);
      assert l.Bin? ==> l.slot in Slots(l) && l.slot in Slots(t.left);
      assert r.Bin? ==> r.slot in Slots(r) && r.slot in Slots(t.right);
    }
  }

  /** The report names every slot that is still reachable and changed, and no other that is
      still reachable. */
  lemma {:induction false} SweepExact(t: Tree, parent: nat, i: nat)
    requires Distinct(t) && parent !in Slots(t) && i in Slots(Sweep(t))
    ensures i in SweepDirty(t, parent) <==> Changed(t, Sweep(t), i)
    ensures i in Slots(t)
  {
    var l, r := Sweep(t.left), Sweep(t.right);
    SweepSlots(t);
    SweepSlots(t.left);
    SweepSlots(t.right);
    SweepDirtyWithin(t.left, t.slot);
    SweepDirtyWithin(t.right, t.slot);
    SweepRoot(t.left);
    SweepRoot(t.right);
    if i == t.slot {
      assert !Collapses(t);
    } else {
      var b := i in Slots(r);
      SweepExact(Child(t, b), t.slot, i);
      EntryInChild(t, b, i);
      assert i !in Slots(Child(t, !b));
      assert i !in Elements(SweepDirty(Child(t, !b), t.slot));
      if !Collapses(t) {
        EntryInChild(Sweep(t), b, i);
      }
    }
  }

  /** No node has a redundant node on either side. */
  ghost predicate NoTwinRedundant(t: Tree) {
    t.Bin? ==>
      && !(Redundant(t.left) && Redundant(t.right))
      && NoTwinRedundant(t.left) && NoTwinRedundant(t.right)
  }

  lemma NoDuplicatesSplit(a: seq<nat>, b: seq<nat>)
    requires NoDuplicates(a + b)
    ensures NoDuplicates(a) && NoDuplicates(b) && Elements(a) !! Elements(b)
  {
    var s := a + b;
    assert forall i | 0 <= i < |a| :: a[i] == s[i];
    assert forall i | 0 <= i < |b| :: b[i] == s[|a| + i];
  }

  /** A sweep reports a slot twice when both children of the node are redundant; that is the only
      way in which its report has duplicates. */
  lemma {:induction false} SweepReportsOnce(t: Tree, parent: nat)
    requires Distinct(t) && parent !in Slots(t)
    ensures NoDuplicates(SweepDirty(t, parent)) <==> NoTwinRedundant(t)
  {
    if t.Bin? {
      var l, r := SweepDirty(t.left, t.slot), SweepDirty(t.right, t.slot);
      var own := if Collapses(t) && parent != 0 then [parent] else [];
      SweepReportsOnce(t.left, t.slot);
      SweepReportsOnce(t.right, t.slot);
      CollapsesIfRedundant(t.left);
      CollapsesIfRedundant(t.right);
      SweepDirtyWithin(t.left, t.slot);
      SweepDirtyWithin(t.right, t.slot);
      ElementsConcat(l, r);
      OverlapAt(Elements(l), Elements(r), Slots(t.left), Slots(t.right), t.slot);
      if NoDuplicates(SweepDirty(t, parent)) {
        NoDuplicatesSplit(l + r, own);
        NoDuplicatesSplit(l, r);
      }
      if NoTwinRedundant(t) {
        NoDuplicatesConcat(l, r);
        NoDuplicatesConcat(l + r, own);
      }
    }
  }

  /** Reports from the two branches can only meet in the slot above them. */
  lemma OverlapAt(l: set<nat>, r: set<nat>, sl: set<nat>, sr: set<nat>, s: nat)
    requires l <= sl + {s} && r <= sr + {s} && sl !! sr && s !in sl + sr
    ensures l !! r <==> !(s in l && s in r)
  {
  }

  /** No redundant node has a redundant child. */
  ghost predicate NoChainRedundant(t: Tree) {
    t.Bin? ==>
      && (Redundant(t) ==> !Redundant(t.left) && !Redundant(t.right))
      && NoChainRedundant(t.left) && NoChainRedundant(t.right)
  }

  /** A sweep reports a slot that it frees exactly when a redundant node has a redundant child. */
  lemma {:induction false} SweepReportsLive(t: Tree, parent: nat)
    requires Distinct(t) && parent !in Slots(t)
    ensures Elements(SweepDirty(t, parent)) !! Elements(Freed(t)) <==> NoChainRedundant(t)
  {
    if t.Bin? {
      SweepReportsLive(t.left, t.slot);
      SweepReportsLive(t.right, t.slot);
      CollapsesIfRedundant(t);
      CollapsesIfRedundant(t.left);
      CollapsesIfRedundant(t.right);
      SweepDirtyWithin(t.left, t.slot);
      SweepDirtyWithin(t.right, t.slot);
      SweepSlots(t.left);
      SweepSlots(t.right);
      FreedElements(t);
      SweepDirtyElements(t, parent);
      MeetBelow(Elements(SweepDirty(t.left, t.slot)), Elements(SweepDirty(t.right, t.slot)), parent,
                Elements(Freed(t.left)), Elements(Freed(t.right)), Collapses(t),
                Slots(t.left), Slots(t.right), t.slot);
    }
  }

  lemma MeetBelow(dl: set<nat>, dr: set<nat>, parent: nat, fl: set<nat>, fr: set<nat>, collapses: bool,
                  sl: set<nat>, sr: set<nat>, s: nat)
    requires dl <= sl + {s} && dr <= sr + {s} && fl <= sl && fr <= sr
    requires sl !! sr && s !in sl + sr && parent !in sl + sr + {s}
    ensures var dirty := dl + dr + (if collapses && parent != 0 then {parent} else {});
            var freed := fl + fr + (if collapses then {s} else {});
            dirty !! freed <==> dl !! fl && dr !! fr && (collapses ==> s !in dl && s !in dr)
  {
  }

  /** Both happen: the root of this run loses a leaf on either side, and is reported for each. */
  lemma DuplicateReport()
    ensures var ops := [Announce([], 1), Announce([false], 2), Announce([true], 3),
                        Retract([false], 4), Retract([true], 5)];
            var t := Run(INITIAL, ops).tree;
            SweepDirty(t, 0) == [1, 1] && Freed(t) == [2, 3]
  {
    var ops := [Announce([], 1), Announce([false], 2), Announce([true], 3), Retract([false], 4), Retract([true], 5)];
    var s3 := Step(Step(Step(INITIAL, ops[0]), ops[1]), ops[2]);
    ForkGrown(s3, ops);
    var s5 := Step(Step(s3, ops[3]), ops[4]);
    assert s5.tree == Fork(false, 5, 4, 5);
    RunFive(INITIAL, ops);
    ForkSwept();
  }

  /** A node in slot 1 with leaves in slots 2 and 3. */
  function Fork(leaves: bool, ts: nat, leftTs: nat, rightTs: nat): Tree {
    Bin(1, [], true, ts, Bin(2, [false], leaves, leftTs, Empty, Empty), Bin(3, [true], leaves, rightTs, Empty, Empty))
  }

  lemma ForkGrown(s: State, ops: seq<Op>)
    requires |ops| >= 3 && ops[..3] == [Announce([], 1), Announce([false], 2), Announce([true], 3)]
    requires s == Step(Step(Step(INITIAL, ops[0]), ops[1]), ops[2])
    ensures s.tree == Fork(true, 3, 2, 3)
  {
    assert ops[0] == ops[..3][0] && ops[1] == ops[..3][1] && ops[2] == ops[..3][2];
    var s1 := Step(INITIAL, ops[0]);
    assert s1.tree == Bin(1, [], true, 1, Empty, Empty) && s1.pool == Pool([], 2);
    var s2 := Step(s1, ops[1]);
    assert s2.tree == Bin(1, [], true, 2, Bin(2, [false], true, 2, Empty, Empty), Empty) && s2.pool == Pool([], 3);
  }

  lemma ForkSwept()
    ensures SweepDirty(Fork(false, 5, 4, 5), 0) == [1, 1] && Freed(Fork(false, 5, 4, 5)) == [2, 3]
  {
  }

  /** And here slot 2 is reported for the leaf below it and then freed. */
  lemma FreedReport()
    ensures var ops := [Announce([], 1), Announce([false], 2), Announce([false, false], 3),
                        Retract([false], 4), Retract([false, false], 5)];
            var t := Run(INITIAL, ops).tree;
            SweepDirty(t, 0) == [2, 1] && Freed(t) == [3, 2]
  {
    var ops := [Announce([], 1), Announce([false], 2), Announce([false, false], 3),
                Retract([false], 4), Retract([false, false], 5)];
    var s3 := Step(Step(Step(INITIAL, ops[0]), ops[1]), ops[2]);
    ChainGrown(s3, ops);
    var s5 := Step(Step(s3, ops[3]), ops[4]);
    assert s5.tree == Chain(false, false, 5, 5);
    RunFive(INITIAL, ops);
    ChainSwept();
  }

  /** Three nested nodes in slots 1 to 3. */
  function Chain(middle: bool, lowest: bool, upperTs: nat, lowestTs: nat): Tree {
    Bin(1, [], true, upperTs,
        Bin(2, [false], middle, upperTs, Bin(3, [false, false], lowest, lowestTs, Empty, Empty), Empty), Empty)
  }

  lemma ChainGrown(s: State, ops: seq<Op>)
    requires |ops| >= 3 && ops[..3] == [Announce([], 1), Announce([false], 2), Announce([false, false], 3)]
    requires s == Step(Step(Step(INITIAL, ops[0]), ops[1]), ops[2])
    ensures s.tree == Chain(true, true, 3, 3)
  {
    assert ops[0] == ops[..3][0] && ops[1] == ops[..3][1] && ops[2] == ops[..3][2];
    var s1 := Step(INITIAL, ops[0]);
    assert s1.tree == Bin(1, [], true, 1, Empty, Empty) && s1.pool == Pool([], 2);
    var s2 := Step(s1, ops[1]);
    assert s2.tree == Bin(1, [], true, 2, Bin(2, [false], true, 2, Empty, Empty), Empty) && s2.pool == Pool([], 3);
  }

  lemma ChainSwept()
    ensures SweepDirty(Chain(false, false, 5, 5), 0) == [2, 1] && Freed(Chain(false, false, 5, 5)) == [3, 2]
  {
  }

  lemma RunFive(s: State, ops: seq<Op>)
    requires |ops| == 5
    ensures Run(s, ops) == Step(Step(Step(Step(Step(s, ops[0]), ops[1]), ops[2]), ops[3]), ops[4])
  {
    assert ops == [ops[0]] + [ops[1]] + [ops[2]] + [ops[3]] + [ops[4]];
    RunConcat(s, [ops[0]] + [ops[1]] + [ops[2]] + [ops[3]], [ops[4]]);
    RunConcat(s, [ops[0]] + [ops[1]] + [ops[2]], [ops[3]]);
    RunConcat(s, [ops[0]] + [ops[1]], [ops[2]]);
    RunConcat(s, [ops[0]], [ops[1]]);
  }

  // ----- coverage, for mirrors of the slab -----

  /** Every change on the way from `t` to `u` is reported. */
  ghost predicate ChangesIn(t: Tree, u: Tree, dirty: set<nat>) {
    forall i :: Changed(t, u, i) ==> i in dirty
  }

  function StepDirty(s: State, op: Op): seq<nat> {
    match op
    case Announce(k, ts) => InsertInto(s, k, ts).dirty
    case Retract(k, ts) => Withdraw(s.tree, k, ts).dirty
    case SweepAll => SweepDirty(s.tree, 0)
  }

  lemma StepChanges(s: State, op: Op)
    requires Inv(s)
    ensures ChangesIn(s.tree, Step(s, op).tree, Elements(StepDirty(s, op)))
  {
    match op
    case Announce(k, ts) =>
      InsertAccounted(s, k, ts);
      InsertExact(s.tree, k, ts, NextSlot(s.pool), NextSlot(Allocated(s.pool)));
    case Retract(k, ts) =>
      WithdrawFinds(s.tree, k, ts);
      if k in Announced(s.tree) {
        WithdrawExact(s.tree, k, ts);
      }
    case SweepAll =>
      forall i | Changed(s.tree, Sweep(s.tree), i) ensures i in Elements(SweepDirty(s.tree, 0)) {
        SlotsCard(s.tree);
        SweepExact(s.tree, 0, i);
      }
  }

  /** Reported slots hold a node before or after. */
  lemma StepDirtyWithin(s: State, op: Op)
    requires Inv(s)
    ensures Elements(StepDirty(s, op)) <= Slots(s.tree) + Slots(Step(s, op).tree)
  {
    SlotsCard(s.tree);
    match op
    case Announce(k, ts) =>
      InsertAccounted(s, k, ts);
      InsertExact(s.tree, k, ts, NextSlot(s.pool), NextSlot(Allocated(s.pool)));
      InsertTarget(s.tree, k, ts, NextSlot(s.pool), NextSlot(Allocated(s.pool)));
    case Retract(k, ts) =>
      WithdrawFinds(s.tree, k, ts);
      if k in Announced(s.tree) {
        WithdrawExact(s.tree, k, ts);
      }
    case SweepAll =>
      SweepDirtyWithin(s.tree, 0);
  }
}
