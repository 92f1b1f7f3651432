/** The radix trie on a slab (`tree.rs`): in-place updates of nodes that refer to each other
    by index, proved to compute the functions of Trie.dfy. */
module RadixTrees {
  import opened Words
  import opened Prefixes
  import opened Trie
  import opened TrieSets
  import opened TrieStates
  import opened TrieDirty
  import opened TrieLookup
  import opened Slab

  // ----- what a slab represents -----

  ghost predicate Matches(n: Node, t: Tree)
    requires t.Bin?
  {
    && n.child0 == RootSlot(t.left) && n.child1 == RootSlot(t.right)
    && KeyOf(n.prefix) == t.key && n.announced == t.announced && n.ts == t.ts
  }

  ghost predicate Represents(e: seq<Node>, t: Tree) {
    t.Bin? ==>
      && 0 < t.slot < |e| && Matches(e[t.slot], t)
      && Represents(e, t.left) && Represents(e, t.right)
  }

  lemma {:induction false} RepresentsFrame(e: seq<Node>, f: seq<Node>, t: Tree)
    requires Represents(e, t) && |e| <= |f|
    requires forall i | 0 <= i < |e| && i in Slots(t) :: f[i] == e[i]
    ensures Represents(f, t)
  {
    if t.Bin? {
      RepresentsFrame(e, f, t.left);
      RepresentsFrame(e, f, t.right);
    }
  }

  lemma RepresentsParts(e: seq<Node>, t: Tree, b: bool)
    requires t.Bin?
    ensures Represents(e, t) <==>
            && 0 < t.slot < |e|
            && ChildOf(e[t.slot], b) == RootSlot(Child(t, b)) && ChildOf(e[t.slot], !b) == RootSlot(Child(t, !b))
            && KeyOf(e[t.slot].prefix) == t.key && e[t.slot].announced == t.announced && e[t.slot].ts == t.ts
            && Represents(e, Child(t, b)) && Represents(e, Child(t, !b))
  {
  }

  /** `InsertOutcome`, plus the indices passed to the `dirty` callback, in order. */
  datatype InsertOutcome = InsertOutcome(newSubroot: nat, target: nat, advanced: bool, dirty: seq<nat>)

  /** What a frame of the insertion finds at its subtree. */
  ghost predicate Insertable(e: seq<Node>, p: Pool, t: Tree) {
    && t.Bin? && Represents(e, t) && WellFormed(t) && Distinct(t)
    && NextSlot(p) != NextSlot(Allocated(p))
    && {NextSlot(p), NextSlot(Allocated(p))} !! Slots(t) + {0}
  }

  /** And what it leaves there: the subtree is the one the specification gives, and no slot
      outside it has changed. */
  ghost predicate Inserted(e: seq<Node>, p: Pool, f: seq<Node>, q: Pool, t: Tree, k: Key, ts: nat, r: InsertOutcome) {
    var o := Insert(t, k, ts, NextSlot(p), NextSlot(Allocated(p)));
    && Represents(f, o.tree)
    && r == InsertOutcome(RootSlot(o.tree), o.target, o.advanced, o.dirty)
    && q == AllocatedTimes(p, Needed(t, k))
    && |f| >= |e|
    && forall i | 0 <= i < |e| && i !in Slots(o.tree) :: f[i] == e[i]
  }

  // The branches of an insertion, seen as updates of the backing vector.

  lemma InsertedAtNode(e: seq<Node>, p: Pool, f: seq<Node>, t: Tree, ts: nat)
    requires Insertable(e, p, t)
    requires f == e[t.slot := e[t.slot].(announced := true, ts := ts)]
    ensures Inserted(e, p, f, p, t, t.key, ts, InsertOutcome(t.slot, t.slot, ts > t.ts, [t.slot]))
  {
    RepresentsFrame(e, f, t.left);
    RepresentsFrame(e, f, t.right);
  }

  lemma BranchFacts(e: seq<Node>, p: Pool, t: Tree, b: bool, k: Key)
    requires Insertable(e, p, t) && t.key < k && b == k[|t.key|]
    ensures var c := Child(t, b);
            && ChildOf(e[t.slot], b) == RootSlot(c) && (RootSlot(c) == 0 <==> c.Empty?)
            && (c.Bin? ==> Insertable(e, p, c))
            && Needed(t, k) == Needed(c, k) && (c.Empty? ==> Needed(t, k) == 1)
            && (k in Announced(t) <==> k in Announced(c))
  {
    AnnouncedOnPath(t, k);
    Parts(t, b);
    DistinctParts(t, b);
    WellFormedParts(t, b);
    RepresentsParts(e, t, b);
    assert Represents(e, Child(t, b));
  }

  lemma InsertedSlots(e: seq<Node>, p: Pool, t: Tree, b: bool, k: Key, ts: nat)
    requires Insertable(e, p, t) && t.key < k && b == k[|t.key|]
    ensures var sub := Insert(Child(t, b), k, ts, NextSlot(p), NextSlot(Allocated(p))).tree;
            t.slot !in Slots(sub) && Slots(Child(t, !b)) !! Slots(sub)
  {
    Parts(t, b);
    DistinctParts(t, b);
    InsertSlots(Child(t, b), k, ts, NextSlot(p), NextSlot(Allocated(p)));
  }

  /** Replacing one child of a node, and its timestamp, replaces that branch. */
  lemma BranchReplaced(e: seq<Node>, g: seq<Node>, f: seq<Node>, t: Tree, b: bool, c: Tree, ts: nat)
    requires t.Bin? && Represents(e, t) && Distinct(t) && Represents(g, c) && |e| <= |g|
    requires forall i | 0 <= i < |e| && i !in Slots(c) :: g[i] == e[i]
    requires t.slot !in Slots(c) && Slots(Child(t, !b)) !! Slots(c)
    requires f == g[t.slot := SetChild(e[t.slot], b, RootSlot(c)).(ts := ts)]
    ensures Represents(f, WithChild(t.(ts := ts), b, c))
  {
    RepresentsParts(e, t, b);
    DistinctParts(t, b);
    RepresentsFrame(g, f, c);
    RepresentsFrame(e, f, Child(t, !b));
    RepresentsParts(f, WithChild(t.(ts := ts), b, c), b);
  }

  lemma InsertDescends(t: Tree, b: bool, k: Key, ts: nat, leaf: nat, split: nat)
    requires t.Bin? && t.key < k && b == k[|t.key|]
    ensures var sub := Insert(Child(t, b), k, ts, leaf, split);
            var advanced := sub.advanced && ts > t.ts;
            var rewired := RootSlot(sub.tree) != RootSlot(Child(t, b));
            Insert(t, k, ts, leaf, split)
            == Outcome(WithChild(t.(ts := if advanced then ts else t.ts), b, sub.tree), sub.target, advanced,
                       sub.dirty + (if rewired || advanced then [t.slot] else []))
    ensures Needed(t, k) == Needed(Child(t, b), k)
  {
  }

  lemma InsertedBelow(e: seq<Node>, p: Pool, g: seq<Node>, f: seq<Node>, q: Pool, t: Tree, b: bool, k: Key, ts: nat,
                      sub: InsertOutcome)
    requires Insertable(e, p, t) && t.key < k && b == k[|t.key|]
    requires Inserted(e, p, g, q, Child(t, b), k, ts, sub)
    requires var advanced := sub.advanced && ts > t.ts;
             f == g[t.slot := SetChild(e[t.slot], b, sub.newSubroot).(ts := if advanced then ts else t.ts)]
    ensures var advanced := sub.advanced && ts > t.ts;
            var rewired := sub.newSubroot != RootSlot(Child(t, b));
            Inserted(e, p, f, q, t, k, ts,
                     InsertOutcome(t.slot, sub.target, advanced,
                                   sub.dirty + (if rewired || advanced then [t.slot] else [])))
  {
    var o := Insert(Child(t, b), k, ts, NextSlot(p), NextSlot(Allocated(p)));
    InsertDescends(t, b, k, ts, NextSlot(p), NextSlot(Allocated(p)));
    InsertedSlots(e, p, t, b, k, ts);
    BranchReplaced(e, g, f, t, b, o.tree, f[t.slot].ts);
    Parts(WithChild(t.(ts := f[t.slot].ts), b, o.tree), b);
  }

  lemma InsertedLeaf(e: seq<Node>, p: Pool, g: seq<Node>, k: Key, ts: nat)
    requires |e| <= |g| && 0 < NextSlot(p) < |g| && Matches(g[NextSlot(p)], Leaf(NextSlot(p), k, ts))
    requires forall i | 0 <= i < |e| && i != NextSlot(p) :: g[i] == e[i]
    ensures Inserted(e, p, g, Allocated(p), Empty, k, ts, InsertOutcome(NextSlot(p), NextSlot(p), true, [NextSlot(p)]))
  {
    LeafParts(NextSlot(p), k, ts);
    assert AllocatedTimes(p, 1) == Allocated(p);
  }

  lemma InsertedAbove(e: seq<Node>, p: Pool, f: seq<Node>, t: Tree, k: Key, ts: nat)
    requires Insertable(e, p, t) && k < t.key && |e| <= |f| && NextSlot(p) < |f|
    requires forall i | 0 <= i < |e| && i != NextSlot(p) :: f[i] == e[i]
    requires Matches(f[NextSlot(p)], Promote(t, k, ts, NextSlot(p)))
    ensures Inserted(e, p, f, Allocated(p), t, k, ts,
                     InsertOutcome(NextSlot(p), NextSlot(p), ts > t.ts, [NextSlot(p)]))
  {
    RepresentsFrame(e, f, t);
    RepresentsParts(f, Promote(t, k, ts, NextSlot(p)), t.key[|k|]);
    PromoteSets(t, k, ts, NextSlot(p));
    assert AllocatedTimes(p, 1) == Allocated(p);
  }

  lemma JoinedBeside(e: seq<Node>, f: seq<Node>, t: Tree, k: Key, ts: nat, leaf: nat, split: nat)
    requires t.Bin? && Represents(e, t) && !(t.key <= k) && !(k <= t.key)
    requires {leaf, split} !! Slots(t) + {0} && |e| <= |f| && leaf < |f| && split < |f|
    requires forall i | 0 <= i < |e| && i != leaf && i != split :: f[i] == e[i]
    requires Matches(f[leaf], Leaf(leaf, k, ts))
    requires Matches(f[split], SplitOff(t, k, ts, leaf, split))
    ensures Represents(f, SplitOff(t, k, ts, leaf, split))
  {
    RepresentsFrame(e, f, t);
    LeafRepresented(f, leaf, k, ts);
    var b := SplitChildren(t, k, ts, leaf, split);
    BothRepresented(f, SplitOff(t, k, ts, leaf, split), b, t, Leaf(leaf, k, ts));
  }

  lemma BothRepresented(f: seq<Node>, u: Tree, b: bool, one: Tree, other: Tree)
    requires u.Bin? && 0 < u.slot < |f| && Matches(f[u.slot], u)
    requires Child(u, b) == one && Child(u, !b) == other && Represents(f, one) && Represents(f, other)
    ensures Represents(f, u)
  {
    RepresentsParts(f, u, b);
  }

  lemma LeafRepresented(f: seq<Node>, leaf: nat, k: Key, ts: nat)
    requires 0 < leaf < |f| && Matches(f[leaf], Leaf(leaf, k, ts))
    ensures Represents(f, Leaf(leaf, k, ts))
  {
  }

  lemma InsertedBeside(e: seq<Node>, p: Pool, f: seq<Node>, t: Tree, k: Key, ts: nat)
    requires Insertable(e, p, t) && !(t.key <= k) && !(k <= t.key)
    requires |e| <= |f| && NextSlot(p) < |f| && NextSlot(Allocated(p)) < |f|
    requires forall i | 0 <= i < |e| && i != NextSlot(p) && i != NextSlot(Allocated(p)) :: f[i] == e[i]
    requires Matches(f[NextSlot(p)], Leaf(NextSlot(p), k, ts))
    requires Matches(f[NextSlot(Allocated(p))], SplitOff(t, k, ts, NextSlot(p), NextSlot(Allocated(p))))
    ensures Inserted(e, p, f, Allocated(Allocated(p)), t, k, ts,
                     InsertOutcome(NextSlot(Allocated(p)), NextSlot(p), ts > t.ts, [NextSlot(Allocated(p)), NextSlot(p)]))
  {
    JoinedBeside(e, f, t, k, ts, NextSlot(p), NextSlot(Allocated(p)));
    SplitSets(t, k, ts, NextSlot(p), NextSlot(Allocated(p)));
    assert AllocatedTimes(p, 2) == AllocatedTimes(Allocated(p), 1) == Allocated(Allocated(p));
  }

  // ----- withdrawal, seen as updates of the backing vector -----

  ghost predicate Withdrawable(e: seq<Node>, t: Tree) {
    t.Bin? && Represents(e, t) && WellFormed(t) && Distinct(t)
  }

  datatype WithdrawOutcome = NotInTrie | Withdrew(advanced: bool)

  ghost predicate Withdrawn(e: seq<Node>, f: seq<Node>, t: Tree, k: Key, ts: nat, r: WithdrawOutcome, dirty: seq<nat>) {
    var o := Withdraw(t, k, ts);
    && r == (if k in Announced(t) then Withdrew(o.advanced) else NotInTrie)
    && dirty == o.dirty
    && (r.NotInTrie? ==> f == e && o == NotFound(t))
    && Represents(f, o.tree)
    && |f| == |e|
    && forall i | 0 <= i < |e| && i !in Slots(t) :: f[i] == e[i]
  }

  lemma WithdrawnAtNode(e: seq<Node>, f: seq<Node>, t: Tree, ts: nat)
    requires Withdrawable(e, t) && t.announced
    requires f == e[t.slot := e[t.slot].(announced := false, ts := ts)]
    ensures Withdrawn(e, f, t, t.key, ts, Withdrew(ts > t.ts), [t.slot])
  {
    RepresentsFrame(e, f, t.left);
    RepresentsFrame(e, f, t.right);
  }

  lemma WithdrawBranch(e: seq<Node>, t: Tree, b: bool, k: Key)
    requires Withdrawable(e, t) && t.key < k && b == k[|t.key|]
    ensures var c := Child(t, b);
            && ChildOf(e[t.slot], b) == RootSlot(c) && (RootSlot(c) == 0 <==> c.Empty?)
            && (c.Bin? ==> Withdrawable(e, c))
            && (k in Announced(t) <==> k in Announced(c))
            && t.slot !in Slots(c) && Slots(Child(t, !b)) !! Slots(c) && Slots(c) <= Slots(t)
  {
    AnnouncedOnPath(t, k);
    Parts(t, b);
    DistinctParts(t, b);
    WellFormedParts(t, b);
    RepresentsParts(e, t, b);
    assert Represents(e, Child(t, b));
  }

  lemma WithdrawDescends(t: Tree, b: bool, k: Key, ts: nat)
    requires WellFormed(t) && Distinct(t) && t.Bin? && t.key < k && b == k[|t.key|] && k in Announced(t)
    ensures var c := Child(t, b);
            var sub := Withdraw(c, k, ts);
            var advanced := sub.advanced && ts > t.ts;
            && Withdraw(t, k, ts)
               == Outcome(WithChild(t.(ts := if advanced then ts else t.ts), b, sub.tree), sub.target, advanced,
                          sub.dirty + (if advanced then [t.slot] else []))
            && RootSlot(sub.tree) == RootSlot(c)
            && Slots(sub.tree) == Slots(c)
  {
    AnnouncedOnPath(t, k);
    WithdrawFinds(Child(t, b), k, ts);
    WithdrawWellFormed(Child(t, b), k, ts);
    WithdrawSlots(Child(t, b), k, ts);
  }

  lemma WithdrawnBelow(e: seq<Node>, g: seq<Node>, f: seq<Node>, t: Tree, b: bool, k: Key, ts: nat,
                       subAdvanced: bool, subDirty: seq<nat>)
    requires Withdrawable(e, t) && t.key < k && b == k[|t.key|]
    requires Withdrawn(e, g, Child(t, b), k, ts, Withdrew(subAdvanced), subDirty)
    requires f == g[t.slot := e[t.slot].(ts := if subAdvanced && ts > t.ts then ts else t.ts)]
    ensures var advanced := subAdvanced && ts > t.ts;
            Withdrawn(e, f, t, k, ts, Withdrew(advanced), subDirty + (if advanced then [t.slot] else []))
  {
    WithdrawBranch(e, t, b, k);
    WithdrawDescends(t, b, k, ts);
    var o := Withdraw(Child(t, b), k, ts);
    BranchReplaced(e, g, f, t, b, o.tree, f[t.slot].ts);
  }

  // ----- sweeping, seen as updates of the backing vector -----

  /** Where the link to a node lives: in its parent, or in the trie's root. */
  datatype ParentSlot = NoParent | ParentSlot(parent: nat, bit: bool)

  function ParentIdx(p: ParentSlot): nat {
    if p.NoParent? then 0 else p.parent
  }

  ghost predicate Sweepable(e: seq<Node>, t: Tree, p: ParentSlot) {
    && t.Bin? && Represents(e, t) && Distinct(t)
    && (p.ParentSlot? ==> 0 < p.parent < |e| && p.parent !in Slots(t) && ChildOf(e[p.parent], p.bit) == t.slot)
  }

  ghost predicate Swept(e: seq<Node>, f: seq<Node>, t: Tree, p: ParentSlot) {
    && |f| == |e|
    && Represents(f, Sweep(t))
    && (forall i | 0 <= i < |e| && i !in Slots(t) && i != ParentIdx(p) :: f[i] == e[i])
    && (p.ParentSlot? && p.parent < |e| ==> f[p.parent] == SetChild(e[p.parent], p.bit, RootSlot(Sweep(t))))
  }

  lemma SweepableRight(e: seq<Node>, g: seq<Node>, t: Tree)
    requires t.Bin? && Represents(e, t) && Distinct(t)
    requires Swept(e, g, t.left, ParentSlot(t.slot, false))
    ensures Represents(g, t.right)
    ensures t.right.Bin? ==> Sweepable(g, t.right, ParentSlot(t.slot, true))
    ensures g[t.slot].child1 == RootSlot(t.right)
  {
    RepresentsFrame(e, g, t.right);
  }

  lemma SweptNothing(e: seq<Node>, t: Tree, p: ParentSlot)
    requires Represents(e, t) && RootSlot(t) == 0
    requires p.ParentSlot? ==> p.parent < |e| && ChildOf(e[p.parent], p.bit) == 0
    ensures t.Empty? && Swept(e, e, t, p)
    ensures Freed(t) == [] && SweepDirty(t, ParentIdx(p)) == []
  {
  }

  ghost predicate BranchesSwept(e: seq<Node>, h: seq<Node>, t: Tree)
    requires t.Bin? && Represents(e, t)
  {
    var l, r := Sweep(t.left), Sweep(t.right);
    && |h| == |e|
    && Represents(h, l) && Represents(h, r)
    && h[t.slot] == e[t.slot].(child0 := RootSlot(l), child1 := RootSlot(r))
    && forall i | 0 <= i < |e| && i !in Slots(t) :: h[i] == e[i]
  }

  /** After both branches of `t` have been swept, left first. */
  lemma SweptBranches(e: seq<Node>, g: seq<Node>, h: seq<Node>, t: Tree)
    requires t.Bin? && Represents(e, t) && Distinct(t)
    requires Swept(e, g, t.left, ParentSlot(t.slot, false)) && Swept(g, h, t.right, ParentSlot(t.slot, true))
    ensures BranchesSwept(e, h, t)
  {
    SweepSlots(t.left);
    var l := Sweep(t.left);
    assert Slots(l) <= Slots(t.left);
    assert forall i | 0 <= i < |e| && i !in Slots(t) :: h[i] == g[i] == e[i];
    RepresentsFrame(g, h, l);
  }

  lemma FreedInOrder(free: seq<nat>, t: Tree)
    requires t.Bin?
    ensures free + Freed(t.left) + Freed(t.right) + (if Collapses(t) then [t.slot] else []) == free + Freed(t)
  {
  }

  lemma FreeListApart(free: seq<nat>, t: Tree)
    requires t.Bin? && Distinct(t) && Elements(free) !! Slots(t)
    ensures Elements(free) !! Slots(t.left)
    ensures Elements(free + Freed(t.left)) !! Slots(t.right)
    ensures t.slot !in free + Freed(t.left) + Freed(t.right)
  {
    SweepSlots(t.left);
    SweepSlots(t.right);
    ElementsConcat(free, Freed(t.left));
    assert t.slot !in Elements(free) + Elements(Freed(t.left)) + Elements(Freed(t.right));
  }

  /** The node stays: it is announced, or still a fork. */
  lemma SweptKeeping(e: seq<Node>, h: seq<Node>, t: Tree, p: ParentSlot)
    requires Sweepable(e, t, p) && !Collapses(t) && BranchesSwept(e, h, t)
    ensures Swept(e, h, t, p)
  {
  }

  /** The node goes: its remaining branch, if any, takes its place in the parent. */
  lemma SweptCollapsing(e: seq<Node>, h: seq<Node>, f: seq<Node>, t: Tree, p: ParentSlot)
    requires Sweepable(e, t, p) && Collapses(t) && BranchesSwept(e, h, t)
    requires f == if p.NoParent? then h else h[p.parent := SetChild(h[p.parent], p.bit, RootSlot(Sweep(t)))]
    ensures Swept(e, f, t, p)
  {
    SweepSlots(t);
    RepresentsFrame(h, f, Sweep(t));
  }

  // ----- reports, seen as updates of the backing vector -----

  lemma {:induction false} SlotContents(e: seq<Node>, t: Tree, i: nat)
    requires Represents(e, t) && Distinct(t) && i in Slots(t)
    ensures 0 < i < |e|
    ensures var x := EntryAt(t, i);
            && e[i].child0 == x.child0 && e[i].child1 == x.child1 && KeyOf(e[i].prefix) == x.key
            && e[i].announced == x.announced && e[i].ts == x.ts
  {
    if i != t.slot {
      SlotContents(e, if i in Slots(t.left) then t.left else t.right, i);
    }
  }

  /** Slot `i` is reachable afterwards, and was not before or held other bytes. */
  ghost predicate Rewritten(e: seq<Node>, f: seq<Node>, t: Tree, u: Tree, i: nat) {
    i in Slots(u) && (i !in Slots(t) || i >= |e| || i >= |f| || e[i] != f[i])
  }

  lemma RewrittenIsChanged(e: seq<Node>, f: seq<Node>, t: Tree, u: Tree, i: nat)
    requires Represents(e, t) && Distinct(t) && Represents(f, u) && Distinct(u)
    ensures Rewritten(e, f, t, u, i) <==> Changed(t, u, i)
  {
    if i in Slots(t) && i in Slots(u) {
      SlotContents(e, t, i);
      SlotContents(f, u, i);
      SameKey(e[i].prefix, f[i].prefix);
    }
  }

  lemma RewrittenAreChanged(e: seq<Node>, f: seq<Node>, t: Tree, u: Tree)
    requires Represents(e, t) && Distinct(t) && Represents(f, u) && Distinct(u)
    ensures forall i :: Rewritten(e, f, t, u, i) <==> Changed(t, u, i)
  {
    forall i ensures Rewritten(e, f, t, u, i) <==> Changed(t, u, i) {
      RewrittenIsChanged(e, f, t, u, i);
    }
  }

  lemma SweepReport(e: seq<Node>, f: seq<Node>, t: Tree)
    requires Represents(e, t) && Distinct(t) && Represents(f, Sweep(t))
    ensures forall i | i in Slots(Sweep(t)) :: i in SweepDirty(t, 0) <==> Rewritten(e, f, t, Sweep(t), i)
  {
    SlotsCard(t);
    SweepSlots(t);
    RewrittenAreChanged(e, f, t, Sweep(t));
    forall i | i in Slots(Sweep(t)) ensures i in SweepDirty(t, 0) <==> Rewritten(e, f, t, Sweep(t), i) {
      SweepExact(t, 0, i);
    }
  }

  lemma {:induction false} WithinSlots(t: Tree, n: Tree)
    ensures Within(t, n) ==> n.slot in Slots(t)
  {
    if t.Bin? {
      WithinSlots(t.left, n);
      WithinSlots(t.right, n);
    }
  }

  // ----- walking, on anything indexable: the slab itself or a buffer it was copied to -----

  lemma BestStep(t: Tree, a: Key, threshold: nat)
    requires t.Bin?
    ensures var deeper := if t.key <= a && |t.key| < |a| then Best(Child(t, a[|t.key|]), a, threshold) else Empty;
            Best(t, a, threshold)
            == if !(t.key <= a) then Empty
               else if deeper.Bin? then deeper
               else if Eligible(t, threshold) then t else Empty
  {
  }

  /** The walk shared by `lookup` and `limited_lookup`, which differ in the test on a node:
      the latter also accepts unannounced nodes of at least `threshold` bits. */
  method Walk(elements: seq<Node>, root: nat, addr: Address, threshold: nat, ghost t: Tree) returns (ans: nat)
    requires Represents(elements, t) && WellFormed(t) && root == RootSlot(t)
    ensures var r := Best(t, AddressKey(addr), threshold);
            ans == RootSlot(r) && (r.Bin? ==> 0 < ans < |elements| && Matches(elements[ans], r))
  {
    var prefix := FromAddress(addr, MAX_PREFIX_LEN);
    ghost var a := AddressKey(addr);
    assert KeyOf(prefix) == a;
    ans := 0;
    if root == 0 {
      return;
    }
    var curIdx := root;
    ghost var cur, found := t, Empty;
    while true
      invariant cur.Bin? && Represents(elements, cur) && WellFormed(cur) && curIdx == cur.slot
      invariant Represents(elements, found) && ans == RootSlot(found)
      invariant var deeper := Best(cur, a, threshold);
                Best(t, a, threshold) == if deeper.Bin? then deeper else found
      decreases cur
    {
      var node := elements[curIdx];
      var common := CommonLenOf(node.prefix, prefix);
      CommonLenCovers(cur.key, a);
      BestStep(cur, a, threshold);
      if common < node.prefix.len {
        break;
      }
      if node.announced || node.prefix.len >= threshold {
        ans := curIdx;
        found := cur;
      }
      if node.prefix.len == MAX_PREFIX_LEN {
        break;
      }
      var bit := BitAt(prefix.bits, node.prefix.len);
      assert bit == a[|cur.key|];
      RepresentsParts(elements, cur, bit);
      WellFormedParts(cur, bit);
      var next := ChildOf(node, bit);
      assert Represents(elements, Child(cur, bit));
      if next == 0 {
        break;
      }
      cur := Child(cur, bit);
      curIdx := next;
    }
  }

  /** `lookup`: the node of the longest announced prefix that covers `addr`; 0 if none does. */
  method LookupIn(elements: seq<Node>, root: nat, addr: Address, ghost t: Tree) returns (ans: nat)
    requires Represents(elements, t) && WellFormed(t) && root == RootSlot(t)
    ensures ans == RootSlot(Best(t, AddressKey(addr), NEVER))
    ensures ans != 0 ==>
              && ans < |elements| && elements[ans].announced
              && LongestMatch(Announced(t), AddressKey(addr), KeyOf(elements[ans].prefix))
              && AtKey(t, KeyOf(elements[ans].prefix)).Bin?
              && AtKey(t, KeyOf(elements[ans].prefix)).ts == elements[ans].ts
    ensures ans == 0 ==> forall x :: x in Announced(t) ==> !(x <= AddressKey(addr))
  {
    ans := Walk(elements, root, addr, NEVER, t);
    LookupIsLongestMatch(t, AddressKey(addr));
    ghost var r := Best(t, AddressKey(addr), NEVER);
    if r.Bin? {
      BestIsDeepest(t, AddressKey(addr), NEVER, Empty);
      WithinIsAtKey(t, r);
    }
  }

  /** The node of the thin tree for a node of the thick one, field by field. */
  function ThinNode(thick: Node): Node {
    Node(thick.child0, thick.child1, thick.prefix, thick.announced, thick.ts)
  }

  /** Where a prefix ends up: in its node if there is one, else in the slot freed last, else in a new
      one at the end. */
  function TargetSlot(t: Tree, freeList: seq<nat>, extent: nat, k: Key): nat {
    if AtKey(t, k).Bin? then AtKey(t, k).slot
    else if freeList != [] then freeList[|freeList| - 1]
    else extent
  }

  lemma TargetIsThere(s: State, k: PrefixKey, ts: nat)
    requires Inv(s)
    ensures var o := InsertInto(s, k, ts);
            && o.target in Slots(o.tree)
            && EntryAt(o.tree, o.target).key == k && EntryAt(o.tree, o.target).announced
            && o.target == TargetSlot(s.tree, s.pool.free, s.pool.extent, k)
  {
    InsertAccounted(s, k, ts);
    InsertTarget(s.tree, k, ts, NextSlot(s.pool), NextSlot(Allocated(s.pool)));
  }

  class RadixTree {
    const slab: VecSlab
    var root: nat
    var announcedCount: int
    var sweepCount: nat
    ghost var model: Tree

    ghost function Abs(): State
      reads this, slab
    {
      State(model, slab.Allocator(), announcedCount, sweepCount)
    }

    ghost predicate Valid()
      reads this, slab
    {
      slab.Valid() && Represents(slab.entries, model) && root == RootSlot(model) && Inv(Abs())
    }

    constructor (capacity: Word)
      ensures Valid() && fresh(slab) && Abs() == INITIAL && slab.maxCapacity == capacity
    {
      slab := new VecSlab(capacity);
      root := 0;
      announcedCount := 0;
      sweepCount := 0;
      model := Empty;
    }

    /** `Clone`: a deep copy, decoupled from the original. */
    constructor CopyOf(other: RadixTree)
      requires other.Valid()
      ensures Valid() && fresh(slab) && Abs() == other.Abs()
      ensures slab.entries == other.slab.entries && slab.maxCapacity == other.slab.maxCapacity
    {
      slab := new VecSlab.CopyOf(other.slab);
      root := other.root;
      announcedCount := other.announcedCount;
      sweepCount := other.sweepCount;
      model := other.model;
    }

    /** `from_thick_tree`: the same nodes at the same indices, with the sweep count reset.  Both payloads
        are just a timestamp, so the mapped nodes are the old ones. */
    constructor FromThickTree(thick: RadixTree)
      requires thick.Valid()
      ensures Valid() && fresh(slab) && Abs() == thick.Abs().(sweeps := 0)
      ensures slab.entries == thick.slab.entries && slab.maxCapacity == thick.slab.maxCapacity
    {
      slab := new VecSlab.MappedFrom(thick.slab, ThinNode);
      root := thick.root;
      announcedCount := thick.announcedCount;
      sweepCount := 0;
      model := thick.model;
      new;
      assert slab.entries == thick.slab.entries;
    }

    /** `node_count`, read from the slab. */
    method NodeCount() returns (n: int)
      requires Valid()
      ensures n == Size(model)
    {
      Tallies(Abs());
      n := slab.Len();
    }

    /** `announced_count`, maintained by the mutations. */
    method AnnouncedTally() returns (n: int)
      requires Valid()
      ensures n == |Announced(model)|
    {
      Tallies(Abs());
      n := announcedCount;
    }

    method AllocAnnouncedNode(prefix: Prefix, ts: nat) returns (idx: nat)
      requires slab.Valid() && slab.Room() > 0
      modifies this`announcedCount, slab
      ensures slab.Valid() && idx == NextSlot(old(slab.Allocator())) < |slab.entries|
      ensures slab.Allocator() == Allocated(old(slab.Allocator())) && slab.Room() == old(slab.Room()) - 1
      ensures |slab.entries| >= old(|slab.entries|)
      ensures forall i | 0 <= i < old(|slab.entries|) && i != idx :: slab.entries[i] == old(slab.entries)[i]
      ensures slab.entries[idx] == Node(0, 0, prefix, true, ts)
      ensures announcedCount == old(announcedCount) + 1
    {
      idx := slab.Alloc();
      slab.Put(idx, Node(0, 0, prefix, true, ts));
      announcedCount := announcedCount + 1;
    }

    method AllocSplitNode(prefix: Prefix, subtreeTs: nat) returns (idx: nat)
      requires slab.Valid() && slab.Room() > 0
      modifies slab
      ensures slab.Valid() && idx == NextSlot(old(slab.Allocator())) < |slab.entries|
      ensures slab.Allocator() == Allocated(old(slab.Allocator())) && slab.Room() == old(slab.Room()) - 1
      ensures |slab.entries| >= old(|slab.entries|)
      ensures forall i | 0 <= i < old(|slab.entries|) && i != idx :: slab.entries[i] == old(slab.entries)[i]
      ensures slab.entries[idx] == Node(0, 0, prefix, false, subtreeTs)
    {
      idx := slab.Alloc();
      slab.Put(idx, Node(0, 0, prefix, false, MergeAncestor(DEFAULT_NODE, subtreeTs).ts));
    }

    /** Points a node at the new root of a branch, if that changed. */
    method Relink(idx: nat, bit: bool, child: nat) returns (changed: bool)
      requires slab.Valid() && idx < |slab.entries|
      modifies slab`entries
      ensures slab.Valid()
      ensures changed <==> child != ChildOf(old(slab.entries)[idx], bit)
      ensures slab.entries == old(slab.entries)[idx := SetChild(old(slab.entries)[idx], bit, child)]
    {
      changed := child != ChildOf(slab.entries[idx], bit);
      if changed {
        slab.Put(idx, SetChild(slab.entries[idx], bit, child));
      }
    }

    /** Merges `ts` into an ancestor, unless a level below already stopped the propagation. */
    method Propagate(idx: nat, ts: nat, below: bool) returns (advanced: bool)
      requires slab.Valid() && idx < |slab.entries|
      modifies slab`entries
      ensures slab.Valid()
      ensures advanced <==> below && ts > old(slab.entries)[idx].ts
      ensures slab.entries == old(slab.entries)[idx :=
                old(slab.entries)[idx].(ts := if advanced then ts else old(slab.entries)[idx].ts)]
    {
      advanced := false;
      if below {
        var before := slab.entries[idx].ts;
        slab.Put(idx, MergeAncestor(slab.entries[idx], ts));
        advanced := slab.entries[idx].ts != before;
      }
    }

    /** One frame of the recursion at `subroot`, which represents `t`. */
    method InsertRecursive(subroot: nat, prefix: Prefix, ts: nat, ghost t: Tree) returns (r: InsertOutcome)
      requires slab.Valid() && slab.Room() >= Needed(t, KeyOf(prefix))
      requires Insertable(slab.entries, slab.Allocator(), t) && subroot == t.slot
      modifies this`announcedCount, slab
      ensures slab.Valid()
      ensures Inserted(old(slab.entries), old(slab.Allocator()), slab.entries, slab.Allocator(), t, KeyOf(prefix), ts, r)
      ensures announcedCount == old(announcedCount) + if KeyOf(prefix) in Announced(t) then 0 else 1
      decreases t, 1
    {
      ghost var k := KeyOf(prefix);
      var node := slab.entries[subroot];
      SameKey(node.prefix, prefix);
      AnnouncedOnPath(t, k);

      if node.prefix == prefix {
        if !node.announced {
          announcedCount := announcedCount + 1;
        }
        slab.Put(subroot, node.(announced := true, ts := ts));
        InsertedAtNode(old(slab.entries), slab.Allocator(), slab.entries, t, ts);
        return InsertOutcome(subroot, subroot, ts > node.ts, [subroot]);
      }

      var common := CommonLenOf(prefix, node.prefix);
      CommonLenCovers(k, t.key);
      if common == node.prefix.len {
        var bit := BitAt(prefix.bits, node.prefix.len);
        assert bit == k[|t.key|];
        BranchFacts(slab.entries, slab.Allocator(), t, bit, k);
        if ChildOf(node, bit) != 0 {
          r := InsertBelow(subroot, prefix, ts, bit, t);
        } else {
          r := InsertLeaf(subroot, prefix, ts, bit, t);
        }
      } else if common == prefix.len {
        r := InsertAbove(subroot, prefix, ts, t);
      } else {
        r := InsertBeside(subroot, prefix, ts, common, t);
      }
    }

    /** `prefix` extends the node's and the child on its side exists: descend. */
    method InsertBelow(subroot: nat, prefix: Prefix, ts: nat, bit: bool, ghost t: Tree) returns (r: InsertOutcome)
      requires slab.Valid() && slab.Room() >= Needed(t, KeyOf(prefix))
      requires Insertable(slab.entries, slab.Allocator(), t) && subroot == t.slot
      requires t.key < KeyOf(prefix) && bit == KeyOf(prefix)[|t.key|] && Child(t, bit).Bin?
      modifies this`announcedCount, slab
      ensures slab.Valid()
      ensures Inserted(old(slab.entries), old(slab.Allocator()), slab.entries, slab.Allocator(), t, KeyOf(prefix), ts, r)
      ensures announcedCount == old(announcedCount) + if KeyOf(prefix) in Announced(t) then 0 else 1
      decreases t, 0
    {
      ghost var k := KeyOf(prefix);
      BranchFacts(slab.entries, slab.Allocator(), t, bit, k);
      InsertedSlots(slab.entries, slab.Allocator(), t, bit, k, ts);

      var child := ChildOf(slab.entries[subroot], bit);
      var sub := InsertRecursive(child, prefix, ts, Child(t, bit));
      ghost var below := slab.entries;
      assert below[subroot] == old(slab.entries)[subroot];
      var childChanged := Relink(subroot, bit, sub.newSubroot);
      var advanced := Propagate(subroot, ts, sub.advanced);
      InsertedBelow(old(slab.entries), old(slab.Allocator()), below, slab.entries, slab.Allocator(), t, bit, k, ts, sub);
      r := InsertOutcome(subroot, sub.target, advanced,
                         sub.dirty + (if childChanged || advanced then [subroot] else []));
    }

    /** `prefix` extends the node's and that side is empty: the node gains a leaf. */
    method InsertLeaf(subroot: nat, prefix: Prefix, ts: nat, bit: bool, ghost t: Tree) returns (r: InsertOutcome)
      requires slab.Valid() && slab.Room() >= 1
      requires Insertable(slab.entries, slab.Allocator(), t) && subroot == t.slot
      requires t.key < KeyOf(prefix) && bit == KeyOf(prefix)[|t.key|] && Child(t, bit).Empty?
      modifies this`announcedCount, slab
      ensures slab.Valid()
      ensures Inserted(old(slab.entries), old(slab.Allocator()), slab.entries, slab.Allocator(), t, KeyOf(prefix), ts, r)
      ensures announcedCount == old(announcedCount) + 1
    {
      ghost var k, p := KeyOf(prefix), slab.Allocator();
      BranchFacts(slab.entries, p, t, bit, k);

      var leafIdx := AllocAnnouncedNode(prefix, ts);
      ghost var grown := slab.entries;
      assert grown[subroot] == old(slab.entries)[subroot];
      slab.Put(subroot, SetChild(slab.entries[subroot], bit, leafIdx));
      var before := slab.entries[subroot].ts;
      slab.Put(subroot, MergeAncestor(slab.entries[subroot], ts));
      var after := slab.entries[subroot].ts;
      InsertedLeaf(old(slab.entries), p, grown, k, ts);
      InsertedBelow(old(slab.entries), p, grown, slab.entries, slab.Allocator(), t, bit, k, ts,
                    InsertOutcome(leafIdx, leafIdx, true, [leafIdx]));
      r := InsertOutcome(subroot, leafIdx, after != before, [leafIdx, subroot]);
    }

    /** The node's prefix extends `prefix`: splice a new announced node above it. */
    method InsertAbove(subroot: nat, prefix: Prefix, ts: nat, ghost t: Tree) returns (r: InsertOutcome)
      requires slab.Valid() && slab.Room() >= 1
      requires Insertable(slab.entries, slab.Allocator(), t) && subroot == t.slot
      requires KeyOf(prefix) < t.key
      modifies this`announcedCount, slab
      ensures slab.Valid()
      ensures Inserted(old(slab.entries), old(slab.Allocator()), slab.entries, slab.Allocator(), t, KeyOf(prefix), ts, r)
      ensures announcedCount == old(announcedCount) + 1
    {
      var node := slab.entries[subroot];
      var nodeBit := BitAt(node.prefix.bits, prefix.len);
      assert nodeBit == t.key[|KeyOf(prefix)|];
      var idx := AllocAnnouncedNode(prefix, ts);
      slab.Put(idx, SetChild(MergeAncestor(slab.entries[idx], node.ts), nodeBit, subroot));
      InsertedAbove(old(slab.entries), old(slab.Allocator()), slab.entries, t, KeyOf(prefix), ts);
      r := InsertOutcome(idx, idx, ts > node.ts, [idx]);
    }

    /** The prefixes diverge after `common` bits: join both under an unannounced node. */
    method InsertBeside(subroot: nat, prefix: Prefix, ts: nat, common: nat, ghost t: Tree) returns (r: InsertOutcome)
      requires slab.Valid() && slab.Room() >= 2
      requires Insertable(slab.entries, slab.Allocator(), t) && subroot == t.slot
      requires !(KeyOf(prefix) <= t.key) && !(t.key <= KeyOf(prefix)) && common == CommonLen(KeyOf(prefix), t.key)
      modifies this`announcedCount, slab
      ensures slab.Valid()
      ensures Inserted(old(slab.entries), old(slab.Allocator()), slab.entries, slab.Allocator(), t, KeyOf(prefix), ts, r)
      ensures announcedCount == old(announcedCount) + 1
    {
      ghost var k := KeyOf(prefix);
      CommonLenCovers(k, t.key);
      var node := slab.entries[subroot];
      var splitPrefix := FromAddress(prefix.bits, common);
      assert KeyOf(splitPrefix) == k[..common];
      var leafBit := BitAt(prefix.bits, common);
      var nodeBit := BitAt(node.prefix.bits, common);
      assert leafBit == k[common] && nodeBit == t.key[common];
      var leafIdx := AllocAnnouncedNode(prefix, ts);
      var splitIdx := AllocSplitNode(splitPrefix, node.ts);
      slab.Put(splitIdx,
               MergeAncestor(SetChild(SetChild(slab.entries[splitIdx], leafBit, leafIdx), nodeBit, subroot), ts));
      InsertedBeside(old(slab.entries), old(slab.Allocator()), slab.entries, t, k, ts);
      r := InsertOutcome(splitIdx, leafIdx, ts > node.ts, [splitIdx, leafIdx]);
    }

    /** Announces `prefix`.  The report names every slot whose bytes changed, each once, and
        apart from the target no other. */
    method Insert(prefix: Prefix, ts: nat) returns (target: nat, dirty: seq<nat>)
      requires Valid() && slab.Room() >= Needed(model, KeyOf(prefix))
      modifies this, slab
      ensures Valid()
      ensures Abs() == Step(old(Abs()), Announce(KeyOf(prefix), ts))
      ensures Announced(model) == old(Announced(model)) + {KeyOf(prefix)}
      ensures target in Slots(model) && slab.entries[target].prefix == prefix && slab.entries[target].announced
      ensures target == TargetSlot(old(model), old(slab.freeList), |old(slab.entries)|, KeyOf(prefix))
      ensures dirty == StepDirty(old(Abs()), Announce(KeyOf(prefix), ts))
      ensures NoDuplicates(dirty) && target in dirty
      ensures forall i :: Rewritten(old(slab.entries), slab.entries, old(model), model, i) ==> i in dirty
      ensures forall i :: i in dirty ==>
                i == target || Rewritten(old(slab.entries), slab.entries, old(model), model, i)
    {
      ghost var s, k := Abs(), KeyOf(prefix);
      ghost var leaf, split := NextSlot(s.pool), NextSlot(Allocated(s.pool));
      InsertAccounted(s, k, ts);
      StepInv(s, Announce(k, ts));
      StepAnnounced(s, Announce(k, ts));
      InsertExact(model, k, ts, leaf, split);
      TargetIsThere(s, k, ts);

      if root == 0 {
        var idx := AllocAnnouncedNode(prefix, ts);
        InsertedLeaf(old(slab.entries), s.pool, slab.entries, k, ts);
        assert AllocatedTimes(s.pool, 1) == slab.Allocator();
        root := idx;
        target, dirty := idx, [idx];
      } else {
        var r := InsertRecursive(root, prefix, ts, model);
        root := r.newSubroot;
        target, dirty := r.target, r.dirty;
      }
      model := InsertInto(s, k, ts).tree;

      SlotContents(slab.entries, model, target);
      SameKey(slab.entries[target].prefix, prefix);
      RewrittenAreChanged(old(slab.entries), slab.entries, old(model), model);
    }

    /** Withdraws `prefix` if it is announced; otherwise nothing changes or is reported. */
    method Withdraw(prefix: Prefix, ts: nat) returns (found: bool, dirty: seq<nat>)
      requires Valid()
      modifies this, slab
      ensures Valid()
      ensures Abs() == Step(old(Abs()), Retract(KeyOf(prefix), ts))
      ensures Announced(model) == old(Announced(model)) - {KeyOf(prefix)}
      ensures found <==> KeyOf(prefix) in old(Announced(model))
      ensures dirty == StepDirty(old(Abs()), Retract(KeyOf(prefix), ts))
      ensures !found ==> dirty == [] && Abs() == old(Abs()) && slab.entries == old(slab.entries)
      ensures NoDuplicates(dirty)
      ensures forall i :: i in dirty <==> Rewritten(old(slab.entries), slab.entries, old(model), model, i)
    {
      ghost var s, k := Abs(), KeyOf(prefix);
      StepInv(s, Retract(k, ts));
      StepAnnounced(s, Retract(k, ts));
      WithdrawFinds(model, k, ts);
      WithdrawSlots(model, k, ts);
      if root == 0 {
        return false, [];
      }
      var r;
      r, dirty := WithdrawRecursive(root, prefix, ts, model);
      found := r.Withdrew?;
      model := Trie.Withdraw(s.tree, k, ts).tree;
      WithdrawWellFormed(s.tree, k, ts);
      if found {
        WithdrawExact(s.tree, k, ts);
      }
      RewrittenAreChanged(old(slab.entries), slab.entries, old(model), model);
    }

    method WithdrawRecursive(subroot: nat, prefix: Prefix, ts: nat, ghost t: Tree)
      returns (r: WithdrawOutcome, dirty: seq<nat>)
      requires slab.Valid() && Withdrawable(slab.entries, t) && subroot == t.slot
      modifies this`announcedCount, slab`entries
      ensures slab.Valid()
      ensures Withdrawn(old(slab.entries), slab.entries, t, KeyOf(prefix), ts, r, dirty)
      ensures announcedCount == old(announcedCount) - if KeyOf(prefix) in Announced(t) then 1 else 0
      decreases t
    {
      ghost var k := KeyOf(prefix);
      var node := slab.entries[subroot];
      SameKey(node.prefix, prefix);
      AnnouncedOnPath(t, k);
      WithdrawFinds(t, k, ts);

      if node.prefix == prefix {
        if !node.announced {
          return NotInTrie, [];
        }
        slab.Put(subroot, node.(announced := false, ts := ts));
        announcedCount := announcedCount - 1;
        WithdrawnAtNode(old(slab.entries), slab.entries, t, ts);
        return Withdrew(ts > node.ts), [subroot];
      }

      var common := CommonLenOf(prefix, node.prefix);
      CommonLenCovers(k, t.key);
      if common < node.prefix.len {
        return NotInTrie, [];
      }
      var bit := BitAt(prefix.bits, node.prefix.len);
      assert bit == k[|t.key|];
      WithdrawBranch(slab.entries, t, bit, k);
      var child := ChildOf(node, bit);
      if child == 0 {
        return NotInTrie, [];
      }
      r, dirty := WithdrawRecursive(child, prefix, ts, Child(t, bit));
      if r.NotInTrie? {
        return NotInTrie, [];
      }
      ghost var below := slab.entries;
      assert below[subroot] == old(slab.entries)[subroot];
      var advanced := Propagate(subroot, ts, r.advanced);
      WithdrawnBelow(old(slab.entries), below, slab.entries, t, bit, k, ts, r.advanced, dirty);
      if advanced {
        dirty := dirty + [subroot];
      }
      r := Withdrew(advanced);
    }

    /** Splices out every unannounced node that is not a fork. */
    method SweepTombstones() returns (dirty: seq<nat>)
      requires Valid()
      modifies this, slab
      ensures Valid()
      ensures Abs() == Step(old(Abs()), SweepAll)
      ensures Announced(model) == old(Announced(model))
      ensures dirty == StepDirty(old(Abs()), SweepAll)
      ensures forall i | i in Slots(model) ::
                i in dirty <==> Rewritten(old(slab.entries), slab.entries, old(model), model, i)
    {
      ghost var s := Abs();
      StepInv(s, SweepAll);
      StepAnnounced(s, SweepAll);
      sweepCount := sweepCount + 1;
      if root == 0 {
        return [];
      }
      dirty := SweepRecursive(root, NoParent, model);
      model := Sweep(s.tree);
      SweepReport(old(slab.entries), slab.entries, s.tree);
    }

    method SweepRecursive(idx: nat, parentSlot: ParentSlot, ghost t: Tree) returns (dirty: seq<nat>)
      requires slab.Valid() && Sweepable(slab.entries, t, parentSlot) && idx == t.slot
      requires parentSlot.NoParent? ==> root == idx
      requires Elements(slab.freeList) !! Slots(t)
      modifies this`root, slab`entries, slab`freeList
      ensures slab.Valid()
      ensures Swept(old(slab.entries), slab.entries, t, parentSlot)
      ensures slab.freeList == old(slab.freeList) + Freed(t)
      ensures root == if parentSlot.NoParent? then RootSlot(Sweep(t)) else old(root)
      ensures dirty == SweepDirty(t, ParentIdx(parentSlot))
      decreases t, 0
    {
      FreeListApart(slab.freeList, t);
      ghost var before := slab.entries;
      var node := slab.entries[idx];
      dirty := SweepChild(node.child0, ParentSlot(idx, false), t.left);
      ghost var between := slab.entries;
      SweepableRight(before, between, t);
      var more := SweepChild(node.child1, ParentSlot(idx, true), t.right);
      SweptBranches(before, between, slab.entries, t);
      var report := SweepNode(idx, parentSlot, before, t);
      FreedInOrder(old(slab.freeList), t);
      dirty := dirty + more + report;
    }

    /** `if let Some(child)`: recurse into a child if there is one. */
    method SweepChild(child: nat, parentSlot: ParentSlot, ghost t: Tree) returns (dirty: seq<nat>)
      requires slab.Valid() && child == RootSlot(t) && parentSlot.ParentSlot? && Represents(slab.entries, t)
      requires if t.Bin? then Sweepable(slab.entries, t, parentSlot)
               else 0 < parentSlot.parent < |slab.entries| && ChildOf(slab.entries[parentSlot.parent], parentSlot.bit) == 0
      requires Elements(slab.freeList) !! Slots(t)
      modifies this`root, slab`entries, slab`freeList
      ensures slab.Valid()
      ensures Swept(old(slab.entries), slab.entries, t, parentSlot)
      ensures slab.freeList == old(slab.freeList) + Freed(t)
      ensures root == old(root)
      ensures dirty == SweepDirty(t, parentSlot.parent)
      decreases t, 1
    {
      if child != 0 {
        dirty := SweepRecursive(child, parentSlot, t);
      } else {
        SweptNothing(slab.entries, t, parentSlot);
        dirty := [];
      }
    }

    /** The second half of a frame, when both branches have been swept. */
    method SweepNode(idx: nat, parentSlot: ParentSlot, ghost e: seq<Node>, ghost t: Tree) returns (dirty: seq<nat>)
      requires slab.Valid() && Sweepable(e, t, parentSlot) && idx == t.slot && idx !in slab.freeList
      requires parentSlot.NoParent? ==> root == idx
      requires BranchesSwept(e, slab.entries, t)
      modifies this`root, slab`entries, slab`freeList
      ensures slab.Valid()
      ensures Swept(e, slab.entries, t, parentSlot)
      ensures slab.freeList == old(slab.freeList) + if Collapses(t) then [t.slot] else []
      ensures root == if parentSlot.NoParent? then RootSlot(Sweep(t)) else old(root)
      ensures dirty == if Collapses(t) && parentSlot.ParentSlot? then [parentSlot.parent] else []
    {
      var node := slab.entries[idx];
      var l, r := node.child0, node.child1;
      if node.announced || (l != 0 && r != 0) {
        SweptKeeping(e, slab.entries, t, parentSlot);
        return [];
      }
      var link := if l != 0 then l else r;
      ghost var after := slab.entries;
      dirty := SetParentSlot(parentSlot, link);
      SweptCollapsing(e, after, slab.entries, t, parentSlot);
      slab.Free(idx);
    }

    method SetParentSlot(parentSlot: ParentSlot, value: nat) returns (dirty: seq<nat>)
      requires slab.Valid() && (parentSlot.ParentSlot? ==> 0 < parentSlot.parent < |slab.entries|)
      modifies this`root, slab`entries
      ensures slab.Valid()
      ensures parentSlot.NoParent? ==> root == value && slab.entries == old(slab.entries) && dirty == []
      ensures parentSlot.ParentSlot? ==>
                && root == old(root) && dirty == [parentSlot.parent]
                && slab.entries == old(slab.entries)[parentSlot.parent :=
                     SetChild(old(slab.entries)[parentSlot.parent], parentSlot.bit, value)]
    {
      match parentSlot
      case NoParent =>
        root := value;
        dirty := [];
      case ParentSlot(parent, bit) =>
        slab.Put(parent, SetChild(slab.entries[parent], bit, value));
        dirty := [parent];
    }

    method Lookup(addr: Address) returns (ans: nat)
      requires Valid()
      ensures ans != 0 ==>
                && ans in Slots(model) && slab.entries[ans].announced
                && LongestMatch(Announced(model), AddressKey(addr), KeyOf(slab.entries[ans].prefix))
      ensures ans == 0 ==> forall x :: x in Announced(model) ==> !(x <= AddressKey(addr))
    {
      ans := LookupIn(slab.entries, root, addr, model);
      BestIsDeepest(model, AddressKey(addr), NEVER, Empty);
      WithinSlots(model, Best(model, AddressKey(addr), NEVER));
    }

    method LimitedLookup(addr: Address, countAllBelow: nat) returns (ans: nat)
      requires Valid()
      ensures ans == RootSlot(Best(model, AddressKey(addr), countAllBelow))
      ensures ans != 0 ==>
                && ans < |slab.entries| && KeyOf(slab.entries[ans].prefix) <= AddressKey(addr)
                && (slab.entries[ans].announced || slab.entries[ans].prefix.len >= countAllBelow)
      ensures forall n :: Within(model, n) && n.key <= AddressKey(addr) && Eligible(n, countAllBelow) ==>
                ans != 0 && |n.key| <= slab.entries[ans].prefix.len
    {
      ans := Walk(slab.entries, root, addr, countAllBelow, model);
      ghost var a := AddressKey(addr);
      BestIsDeepest(model, a, countAllBelow, Empty);
      forall n | Within(model, n) && n.key <= a && Eligible(n, countAllBelow)
        ensures ans != 0 && |n.key| <= slab.entries[ans].prefix.len
      {
        BestIsDeepest(model, a, countAllBelow, n);
      }
    }
  }
}
