/** Max-to-root timestamps. */
module TrieTimestamps {
  import opened Prefixes
  import opened Trie
  import opened TrieSets
  import opened TrieStates

  function RootTs(t: Tree): nat {
    if t.Empty? then 0 else t.ts
  }

  /** Every node is at least as recent as its children. */
  ghost predicate Ordered(t: Tree) {
    t.Bin? ==>
      && RootTs(t.left) <= t.ts && RootTs(t.right) <= t.ts
      && Ordered(t.left) && Ordered(t.right)
  }

  /** The most recent timestamp anywhere in a trie. */
  function Latest(t: Tree): nat {
    if t.Empty? then 0 else Max(t.ts, Max(Latest(t.left), Latest(t.right)))
  }

  /** In an ordered trie a node's timestamp is the most recent one stored below it. */
  lemma {:induction false} OrderedRootIsLatest(t: Tree)
    requires Ordered(t)
    ensures RootTs(t) == Latest(t)
  {
    if t.Bin? {
      OrderedRootIsLatest(t.left);
      OrderedRootIsLatest(t.right);
    }
  }

  /** `ts` is not older than anything strictly below the node for `k`: the one thing an
      update can break, because it overwrites its target's timestamp. */
  predicate NotStale(t: Tree, k: Key, ts: nat) {
    var n := AtKey(t, k);
    n.Bin? ==> RootTs(n.left) <= ts && RootTs(n.right) <= ts
  }

  // ----- early stop -----

  /** Insertion that merges `ts` into every ancestor instead of stopping early. */
  function InsertMergingAll(t: Tree, k: Key, ts: nat, leaf: nat, split: nat): Tree {
    if t.Bin? && t.key != k && t.key <= k then
      var b := k[|t.key|];
      WithChild(t.(ts := Max(t.ts, ts)), b, InsertMergingAll(Child(t, b), k, ts, leaf, split))
    else Insert(t, k, ts, leaf, split).tree
  }

  function WithdrawMergingAll(t: Tree, k: Key, ts: nat): Tree {
    if t.Bin? && t.key != k && t.key <= k then
      var b := k[|t.key|];
      WithChild(t.(ts := Max(t.ts, ts)), b, WithdrawMergingAll(Child(t, b), k, ts))
    else Withdraw(t, k, ts).tree
  }

  /** In an ordered trie the early stop loses nothing. */
  lemma {:induction false} InsertEarlyStop(t: Tree, k: Key, ts: nat, leaf: nat, split: nat)
    requires Ordered(t)
    ensures Insert(t, k, ts, leaf, split).tree == InsertMergingAll(t, k, ts, leaf, split)
    ensures t.Bin? ==> (Insert(t, k, ts, leaf, split).advanced <==> ts > t.ts)
  {
    if t.Bin? && t.key != k && t.key <= k {
      InsertEarlyStop(Child(t, k[|t.key|]), k, ts, leaf, split);
    }
  }

  lemma {:induction false} WithdrawEarlyStop(t: Tree, k: Key, ts: nat)
    requires Ordered(t) && WellFormed(t) && Distinct(t) && k in Announced(t)
    ensures Withdraw(t, k, ts).tree == WithdrawMergingAll(t, k, ts)
    ensures Withdraw(t, k, ts).advanced <==> ts > t.ts
  {
    WithdrawFinds(t, k, ts);
    AnnouncedOnPath(t, k);
    if t.key != k {
      WithdrawEarlyStop(Child(t, k[|t.key|]), k, ts);
    }
  }

  // ----- when the order survives -----

  /** An insert keeps the order exactly when it is not stale for its target. */
  lemma {:induction false} InsertOrdered(t: Tree, k: Key, ts: nat, leaf: nat, split: nat)
    requires Ordered(t)
    ensures var u := Insert(t, k, ts, leaf, split).tree;
            && (Ordered(u) <==> NotStale(t, k, ts))
            && RootTs(u) <= Max(RootTs(t), ts)
  {
    InsertEarlyStop(t, k, ts, leaf, split);
    if t.Bin? && t.key != k {
      if t.key <= k {
        InsertOrdered(Child(t, k[|t.key|]), k, ts, leaf, split);
      } else if !(k <= t.key) {
        SplitOrdered(t, k, ts, leaf, split);
      }
    }
  }

  lemma SplitOrdered(t: Tree, k: Key, ts: nat, leaf: nat, split: nat)
    requires Ordered(t) && t.Bin? && !(t.key <= k) && !(k <= t.key)
    ensures Ordered(SplitOff(t, k, ts, leaf, split)) && SplitOff(t, k, ts, leaf, split).ts == Max(t.ts, ts)
  {
    var b := SplitChildren(t, k, ts, leaf, split);
    assert Ordered(Leaf(leaf, k, ts));
  }

  lemma {:induction false} WithdrawOrdered(t: Tree, k: Key, ts: nat)
    requires Ordered(t) && WellFormed(t) && Distinct(t) && k in Announced(t)
    ensures var u := Withdraw(t, k, ts).tree;
            && (Ordered(u) <==> NotStale(t, k, ts))
            && RootTs(u) <= Max(RootTs(t), ts)
  {
    WithdrawEarlyStop(t, k, ts);
    WithdrawFinds(t, k, ts);
    AnnouncedOnPath(t, k);
    if t.key != k {
      WithdrawOrdered(Child(t, k[|t.key|]), k, ts);
    }
  }

  lemma {:induction false} SweepOrdered(t: Tree)
    requires Ordered(t)
    ensures Ordered(Sweep(t)) && RootTs(Sweep(t)) <= RootTs(t)
  {
    if t.Bin? {
      SweepOrdered(t.left);
      SweepOrdered(t.right);
    }
  }

  // ----- runs -----

  predicate Chronological(ops: seq<Op>, since: nat)
    decreases |ops|
  {
    ops != [] ==>
      var now := if ops[0].SweepAll? then since else ops[0].ts;
      since <= now && Chronological(ops[1..], now)
  }

  lemma {:induction false} ChronologicalPrefix(ops: seq<Op>, later: seq<Op>, since: nat)
    requires Chronological(ops + later, since)
    ensures Chronological(ops, since)
    decreases |ops|
  {
    if ops != [] {
      assert (ops + later)[1..] == ops[1..] + later;
      ChronologicalPrefix(ops[1..], later, if ops[0].SweepAll? then since else ops[0].ts);
    }
  }

  lemma {:induction false} AtKeyLatest(t: Tree, k: Key)
    ensures Latest(AtKey(t, k)) <= Latest(t)
  {
    if t.Bin? && t.key != k && t.key <= k {
      AtKeyLatest(Child(t, k[|t.key|]), k);
    }
  }

  lemma UpdateIsNotStale(t: Tree, k: Key, ts: nat)
    requires Latest(t) <= ts
    ensures NotStale(t, k, ts)
  {
    AtKeyLatest(t, k);
    var n := AtKey(t, k);
    if n.Bin? {
      assert RootTs(n.left) <= Latest(n.left) && RootTs(n.right) <= Latest(n.right);
    }
  }

  /** While updates arrive in timestamp order, the trie stays ordered. */
  lemma {:induction false} RunOrdered(s: State, ops: seq<Op>, since: nat)
    requires Inv(s) && Ordered(s.tree) && Latest(s.tree) <= since
    requires Chronological(ops, since)
    ensures Ordered(Run(s, ops).tree)
    decreases |ops|
  {
    if ops != [] {
      var now := if ops[0].SweepAll? then since else ops[0].ts;
      StepInv(s, ops[0]);
      StepOrdered(s, ops[0], now);
      RunOrdered(Step(s, ops[0]), ops[1..], now);
    }
  }

  lemma StepOrdered(s: State, op: Op, now: nat)
    requires Inv(s) && Ordered(s.tree) && Latest(s.tree) <= now
    requires op.SweepAll? || op.ts == now
    ensures var u := Step(s, op).tree;
            Ordered(u) && Latest(u) <= now
  {
    var t, u := s.tree, Step(s, op).tree;
    OrderedRootIsLatest(t);
    match op
    case Announce(k, ts) =>
      UpdateIsNotStale(t, k, ts);
      InsertOrdered(t, k, ts, NextSlot(s.pool), NextSlot(Allocated(s.pool)));
      OrderedRootIsLatest(u);
    case Retract(k, ts) =>
      UpdateIsNotStale(t, k, ts);
      WithdrawFinds(t, k, ts);
      if k in Announced(t) {
        WithdrawOrdered(t, k, ts);
      }
      OrderedRootIsLatest(u);
    case SweepAll =>
      SweepOrdered(t);
      OrderedRootIsLatest(u);
  }

  /** Out of order it need not: re-announcing a covering prefix with an older timestamp
      leaves its child more recent than itself. */
  lemma StaleUpdateBreaksOrder()
    ensures var ops := [Announce([true], 1), Announce([true, true], 3), Announce([true], 2)];
            !Chronological(ops, 0) && !Ordered(Run(INITIAL, ops).tree)
  {
    var s1 := Step(INITIAL, Announce([true], 1));
    var s2 := Step(s1, Announce([true, true], 3));
    var s3 := Step(s2, Announce([true], 2));
    assert s1.tree == Bin(1, [true], true, 1, Empty, Empty);
    assert s2.tree == Bin(1, [true], true, 3, Empty, Bin(2, [true, true], true, 3, Empty, Empty));
    assert s3.tree.ts == 2 && s3.tree.right.ts == 3;
    var ops := [Announce([true], 1), Announce([true, true], 3), Announce([true], 2)];
    assert ops[1..] == [ops[1], ops[2]] && ops[1..][1..] == [ops[2]] && ops[1..][1..][1..] == [];
    assert Run(INITIAL, ops) == s3;
  }
}
