/** Sweeping, and why a swept trie is determined by its announced set. */
module TrieShape {
  import opened Prefixes
  import opened Trie
  import opened TrieSets
  import opened TrieStates

  /** Every unannounced node is a fork. */
  ghost predicate Compact(t: Tree) {
    t.Bin? ==>
      && (t.announced || (t.left.Bin? && t.right.Bin?))
      && Compact(t.left) && Compact(t.right)
  }

  // ----- sweeping -----

  lemma {:induction false} SweepCompacts(t: Tree)
    ensures Compact(Sweep(t))
  {
    if t.Bin? {
      SweepCompacts(t.left);
      SweepCompacts(t.right);
    }
  }

  /** A second sweep changes nothing, frees nothing and reports nothing. */
  lemma {:induction false} SweepOfCompact(t: Tree, parent: nat)
    requires Compact(t)
    ensures Sweep(t) == t && Freed(t) == [] && SweepDirty(t, parent) == []
  {
    if t.Bin? {
      SweepOfCompact(t.left, t.slot);
      SweepOfCompact(t.right, t.slot);
    }
  }

  lemma {:induction false} CompactHasAnnounced(t: Tree) returns (k: Key)
    requires Compact(t) && t.Bin?
    ensures k in Announced(t)
  {
    if t.announced {
      k := t.key;
    } else {
      k := CompactHasAnnounced(t.left);
    }
  }

  /** Forks are outnumbered by the announced nodes they separate. */
  lemma {:induction false} CompactSize(t: Tree)
    requires Compact(t)
    ensures Size(t) <= 2 * AnnouncedCount(t)
    ensures t.Bin? ==> Size(t) <= 2 * AnnouncedCount(t) - 1
  {
    if t.Bin? {
      CompactSize(t.left);
      CompactSize(t.right);
    }
  }

  /** What one sweep leaves of a reachable state. */
  lemma SweepLeavesCompact(s: State)
    requires Inv(s)
    ensures var u := Step(s, SweepAll);
            && Compact(u.tree)
            && Announced(u.tree) == Announced(s.tree)
            && (Announced(s.tree) == {} ==> u.tree == Empty)
            && (Announced(s.tree) != {} ==> Size(u.tree) <= 2 * |Announced(s.tree)| - 1)
            && Step(u, SweepAll) == u.(sweeps := u.sweeps + 1)
  {
    var u := Step(s, SweepAll);
    StepInv(s, SweepAll);
    SweepCompacts(s.tree);
    SweepAnnounced(s.tree);
    SweepOfCompact(u.tree, 0);
    CompactSize(u.tree);
    AnnouncedCard(u.tree);
    if u.tree.Bin? {
      var k := CompactHasAnnounced(u.tree);
    }
  }

  // ----- canonical shape -----

  /** A trie without slots and timestamps. */
  datatype Shape = Nothing | Fork(key: Key, announced: bool, left: Shape, right: Shape)

  function ShapeOf(t: Tree): Shape {
    if t.Empty? then Nothing else Fork(t.key, t.announced, ShapeOf(t.left), ShapeOf(t.right))
  }

  /** The root's key is a prefix of the other root's: all its keys continue it, and at a
      fork they continue in both ways. */
  lemma RootKeyBelow(t: Tree, u: Tree)
    requires WellFormed(t) && WellFormed(u) && Compact(u) && t.Bin? && u.Bin?
    requires Announced(u) <= Announced(t)
    ensures t.key <= u.key
  {
    if u.announced {
      AnnouncedBelow(t, [], u.key);
    } else {
      var x := CompactHasAnnounced(u.left);
      var y := CompactHasAnnounced(u.right);
      AnnouncedInChild(u, false, x);
      AnnouncedInChild(u, true, y);
      AnnouncedBelow(t, [], x);
      AnnouncedBelow(t, [], y);
      assert t.key <= x && t.key <= y && u.key <= x;
      assert forall i | 0 <= i < |t.key| :: x[i] == t.key[i] == y[i];
    }
  }

  /** The announced keys of a branch are those that continue with its bit. */
  lemma BranchAnnounced(t: Tree, b: bool)
    requires WellFormed(t) && t.Bin?
    ensures Announced(Child(t, b)) == set k | k in Announced(t) && t.key < k && k[|t.key|] == b
  {
    forall k | k in Announced(Child(t, b)) ensures k in Announced(t) && t.key < k && k[|t.key|] == b {
      Parts(t, b);
      AnnouncedInChild(t, b, k);
    }
    forall k | k in Announced(t) && t.key < k && k[|t.key|] == b ensures k in Announced(Child(t, b)) {
      AnnouncedOnPath(t, k);
    }
  }

  /** Compact tries with the same announced set have the same shape. */
  lemma {:induction false} SameAnnouncedSameShape(t: Tree, u: Tree)
    requires WellFormed(t) && WellFormed(u) && Compact(t) && Compact(u)
    requires Announced(t) == Announced(u)
    ensures ShapeOf(t) == ShapeOf(u)
  {
    if t.Bin? {
      var k := CompactHasAnnounced(t);
    }
    if u.Bin? {
      var k := CompactHasAnnounced(u);
    }
    if t.Bin? && u.Bin? {
      RootKeyBelow(t, u);
      RootKeyBelow(u, t);
      AnnouncedOnPath(t, t.key);
      AnnouncedOnPath(u, t.key);
      BranchAnnounced(t, false);
      BranchAnnounced(u, false);
      BranchAnnounced(t, true);
      BranchAnnounced(u, true);
      SameAnnouncedSameShape(t.left, u.left);
      SameAnnouncedSameShape(t.right, u.right);
    }
  }

  /** History independence: whatever was announced, withdrawn and swept before, a sweep
      leaves a shape that depends only on what is announced now. */
  lemma HistoryIndependence(ops: seq<Op>, others: seq<Op>)
    requires Effects({}, ops) == Effects({}, others)
    ensures ShapeOf(Run(INITIAL, ops + [SweepAll]).tree) == ShapeOf(Run(INITIAL, others + [SweepAll]).tree)
  {
    var s, r := Run(INITIAL, ops), Run(INITIAL, others);
    RunInv(INITIAL, ops);
    RunInv(INITIAL, others);
    RunAnnounced(INITIAL, ops);
    RunAnnounced(INITIAL, others);
    RunConcat(INITIAL, ops, [SweepAll]);
    RunConcat(INITIAL, others, [SweepAll]);
    StepInv(s, SweepAll);
    StepInv(r, SweepAll);
    SweepLeavesCompact(s);
    SweepLeavesCompact(r);
    SameAnnouncedSameShape(Step(s, SweepAll).tree, Step(r, SweepAll).tree);
  }
}
