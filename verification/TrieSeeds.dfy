/** Timestamps after a sequence of announcements in any order, as bulk seeding makes them. */
module TrieSeeds {
  import opened Prefixes
  import opened Trie
  import opened TrieSets
  import opened TrieStates
  import opened TrieLookup
  import opened TrieTimestamps
  import opened TrieTouches

  /** The most recent timestamp of a node at or below `x`. */
  function LatestBelow(t: Tree, x: Key): nat {
    if t.Empty? then 0
    else Max(if x <= t.key then t.ts else 0, Max(LatestBelow(t.left, x), LatestBelow(t.right, x)))
  }

  /** The most recent timestamp of an announcement at or below `x`. */
  function LatestOp(ops: seq<Op>, x: Key): nat
    decreases |ops|
  {
    if ops == [] then 0
    else Max(if ops[0].Announce? && x <= ops[0].key then ops[0].ts else 0, LatestOp(ops[1..], x))
  }

  lemma LatestParts(t: Tree, b: bool, x: Key)
    requires t.Bin?
    ensures LatestBelow(t, x)
            == Max(if x <= t.key then t.ts else 0, Max(LatestBelow(Child(t, b), x), LatestBelow(Child(t, !b), x)))
  {
  }

  lemma {:induction false} LatestWithin(t: Tree, base: Key, x: Key)
    requires WellFormed(t) && Below(t, base)
    ensures LatestBelow(t, x) <= Latest(t)
    ensures x <= base ==> LatestBelow(t, x) == Latest(t)
    ensures !(x <= base) && !(base <= x) ==> LatestBelow(t, x) == 0
  {
    if t.Bin? {
      LatestWithin(t.left, t.key + [false], x);
      LatestWithin(t.right, t.key + [true], x);
      if !(x <= base) && !(base <= x) {
        Incomparable(base, t.key, x);
        Incomparable(base, t.key + [false], x);
        Incomparable(base, t.key + [true], x);
      }
    }
  }

  lemma Incomparable(base: Key, k: Key, x: Key)
    requires base <= k && !(x <= base) && !(base <= x)
    ensures !(x <= k) && !(k <= x)
  {
  }

  /** In an ordered trie every node carries the most recent timestamp at or below it. */
  lemma {:induction false} NodeIsLatest(t: Tree, n: Tree)
    requires WellFormed(t) && Ordered(t) && Within(t, n)
    ensures n.ts == LatestBelow(t, n.key)
  {
    if n == t {
      LatestWithin(t, t.key, t.key);
      OrderedRootIsLatest(t);
    } else {
      var b := Within(t.right, n);
      var key := t.key + [b];
      WithinBelow(Child(t, b), key, n);
      NodeIsLatest(Child(t, b), n);
      BelowIsLonger(t, n);
      assert n.key[|t.key|] == key[|t.key|];
      LatestWithin(Child(t, !b), t.key + [!b], n.key);
      LatestParts(t, b, n.key);
    }
  }

  // ----- one announcement -----

  /** The node for `k`, if there is one, is not more recent than `ts`. */
  predicate Fresh(t: Tree, k: Key, ts: nat) {
    var n := AtKey(t, k);
    n.Bin? ==> n.ts <= ts
  }

  lemma {:induction false} AtKeyOrdered(t: Tree, k: Key)
    requires Ordered(t)
    ensures Ordered(AtKey(t, k))
  {
    if t.Bin? && t.key != k && t.key <= k {
      AtKeyOrdered(Child(t, k[|t.key|]), k);
    }
  }

  lemma FreshIsNotStale(t: Tree, k: Key, ts: nat)
    requires Ordered(t) && Fresh(t, k, ts)
    ensures NotStale(t, k, ts)
  {
    AtKeyOrdered(t, k);
  }

  /** The effect of one announcement on what is most recent below any prefix. */
  function Raised(before: nat, x: Key, k: Key, ts: nat): nat {
    if x <= k then Max(before, ts) else before
  }

  lemma LeafLatest(leaf: nat, k: Key, ts: nat, x: Key)
    ensures LatestBelow(Leaf(leaf, k, ts), x) == if x <= k then ts else 0
  {
    assert LatestBelow(Empty, x) == 0;
  }

  lemma PromoteLatest(t: Tree, k: Key, ts: nat, leaf: nat, x: Key)
    requires WellFormed(t) && Ordered(t) && t.Bin? && k < t.key
    ensures LatestBelow(Promote(t, k, ts, leaf), x) == Raised(LatestBelow(t, x), x, k, ts)
  {
    var u, b := Promote(t, k, ts, leaf), t.key[|k|];
    LatestParts(u, b, x);
    if x <= k {
      LatestWithin(t, t.key, x);
      OrderedRootIsLatest(t);
    }
  }

  lemma SplitLatest(t: Tree, k: Key, ts: nat, leaf: nat, split: nat, x: Key)
    requires WellFormed(t) && Ordered(t) && t.Bin? && !(t.key <= k) && !(k <= t.key)
    ensures LatestBelow(SplitOff(t, k, ts, leaf, split), x) == Raised(LatestBelow(t, x), x, k, ts)
  {
    var u := SplitOff(t, k, ts, leaf, split);
    var b := SplitChildren(t, k, ts, leaf, split);
    LatestParts(u, b, x);
    LeafLatest(leaf, k, ts, x);
    if x <= u.key {
      PrefixTransitive(u.key, u.key + [b], t.key);
      PrefixTransitive(u.key, u.key + [!b], k);
      LatestWithin(t, t.key, x);
      OrderedRootIsLatest(t);
    }
  }

  lemma ExactLatest(t: Tree, ts: nat, x: Key)
    requires WellFormed(t) && Ordered(t) && t.Bin? && t.ts <= ts
    ensures LatestBelow(t.(announced := true, ts := ts), x) == Raised(LatestBelow(t, x), x, t.key, ts)
  {
    if x <= t.key {
      LatestWithin(t, t.key, x);
      OrderedRootIsLatest(t);
    }
  }

  lemma DescendLatest(t: Tree, u: Tree, b: bool, k: Key, ts: nat, x: Key)
    requires t.Bin? && u.Bin? && u.key == t.key && t.key + [b] <= k && u.ts == Max(t.ts, ts)
    requires Child(u, !b) == Child(t, !b)
    requires LatestBelow(Child(u, b), x) == Raised(LatestBelow(Child(t, b), x), x, k, ts)
    ensures LatestBelow(u, x) == Raised(LatestBelow(t, x), x, k, ts)
  {
    LatestParts(t, b, x);
    LatestParts(u, b, x);
    if x <= t.key {
      PrefixTransitive(t.key, t.key + [b], k);
    }
  }

  lemma DescendInsert(t: Tree, k: Key, ts: nat, leaf: nat, split: nat)
    requires Ordered(t) && t.Bin? && t.key != k && t.key <= k
    ensures var b := k[|t.key|];
            && t.key + [b] <= k && AtKey(t, k) == AtKey(Child(t, b), k)
            && Insert(t, k, ts, leaf, split).tree
               == WithChild(t.(ts := Max(t.ts, ts)), b, Insert(Child(t, b), k, ts, leaf, split).tree)
  {
    InsertEarlyStop(t, k, ts, leaf, split);
    InsertEarlyStop(Child(t, k[|t.key|]), k, ts, leaf, split);
  }

  lemma {:induction false} FreshInsert(t: Tree, k: Key, ts: nat, leaf: nat, split: nat, x: Key)
    requires WellFormed(t) && Ordered(t) && Fresh(t, k, ts)
    ensures LatestBelow(Insert(t, k, ts, leaf, split).tree, x) == Raised(LatestBelow(t, x), x, k, ts)
  {
    if t.Empty? {
      LeafLatest(leaf, k, ts, x);
    } else if t.key == k {
      ExactLatest(t, ts, x);
    } else if t.key <= k {
      var b := k[|t.key|];
      DescendInsert(t, k, ts, leaf, split);
      FreshInsert(Child(t, b), k, ts, leaf, split, x);
      DescendLatest(t, Insert(t, k, ts, leaf, split).tree, b, k, ts, x);
    } else if k <= t.key {
      PromoteLatest(t, k, ts, leaf, x);
    } else {
      SplitLatest(t, k, ts, leaf, split, x);
    }
  }

  /** The announced prefix has a node, at least as recent as the announcement. */
  lemma {:induction false} AnnouncedNode(t: Tree, k: Key, ts: nat, leaf: nat, split: nat)
    ensures var n := AtKey(Insert(t, k, ts, leaf, split).tree, k);
            n.Bin? && n.announced && n.ts >= ts
  {
    if t.Bin? && t.key != k {
      if t.key <= k {
        AnnouncedNode(Child(t, k[|t.key|]), k, ts, leaf, split);
      } else if !(k <= t.key) {
        SplitNode(t, k, ts, leaf, split);
      }
    }
  }

  /** It carries what is most recent at or below it if and only if it is new or was not more recent
      than the announcement. */
  lemma {:induction false} AnnouncedNodeLatest(t: Tree, k: Key, ts: nat, leaf: nat, split: nat)
    requires WellFormed(t) && Ordered(t)
    ensures AtKey(Insert(t, k, ts, leaf, split).tree, k).Bin?
    ensures AtKey(Insert(t, k, ts, leaf, split).tree, k).ts == Max(LatestBelow(t, k), ts) <==> Fresh(t, k, ts)
  {
    AnnouncedNode(t, k, ts, leaf, split);
    if t.Empty? {
    } else if t.key == k {
      LatestWithin(t, k, k);
      OrderedRootIsLatest(t);
    } else if t.key <= k {
      var b := k[|t.key|];
      AnnouncedNodeLatest(Child(t, b), k, ts, leaf, split);
      LatestParts(t, b, k);
      LatestWithin(Child(t, !b), t.key + [!b], k);
    } else if k <= t.key {
      LatestWithin(t, t.key, k);
      OrderedRootIsLatest(t);
    } else {
      SplitNode(t, k, ts, leaf, split);
      LatestWithin(t, t.key, k);
    }
  }

  lemma SplitNode(t: Tree, k: Key, ts: nat, leaf: nat, split: nat)
    requires t.Bin? && !(t.key <= k) && !(k <= t.key)
    ensures AtKey(SplitOff(t, k, ts, leaf, split), k) == Leaf(leaf, k, ts)
    ensures forall x | t.key <= x :: AtKey(SplitOff(t, k, ts, leaf, split), x) == AtKey(t, x)
  {
    var c := SplitChildren(t, k, ts, leaf, split);
    var u := SplitOff(t, k, ts, leaf, split);
    assert k[|u.key|] == (u.key + [!c])[|u.key|];
    forall x | t.key <= x ensures AtKey(u, x) == AtKey(t, x) {
      PrefixTransitive(u.key + [c], t.key, x);
      assert x[|u.key|] == (u.key + [c])[|u.key|];
    }
  }

  /** Announcing another prefix lowers no timestamp and moves no node. */
  lemma {:induction false} OthersKept(t: Tree, k: Key, ts: nat, leaf: nat, split: nat, x: Key)
    requires WellFormed(t) && x != k && AtKey(t, x).Bin?
    ensures var n, m := AtKey(t, x), AtKey(Insert(t, k, ts, leaf, split).tree, x);
            m.Bin? && m.slot == n.slot && m.announced == n.announced && m.ts >= n.ts
  {
    AtKeyIsWithin(t, x);
    WithinBelow(t, [], AtKey(t, x));
    if t.key == k || !(t.key <= k) {
      if t.key != k && !(k <= t.key) {
        SplitNode(t, k, ts, leaf, split);
      } else if t.key != k {
        PrefixTransitive(k, t.key, x);
        assert x[|k|] == t.key[|k|];
      }
    } else if t.key != x && x[|t.key|] == k[|t.key|] {
      OthersKept(Child(t, x[|t.key|]), k, ts, leaf, split, x);
    }
  }

  // ----- many announcements -----

  ghost predicate RunFresh(s: State, ops: seq<Op>)
    decreases |ops|
  {
    ops != [] ==>
      && ops[0].Announce? && Fresh(s.tree, ops[0].key, ops[0].ts)
      && RunFresh(Step(s, ops[0]), ops[1..])
  }

  /** If no announcement finds a node of its own that is more recent, the order does not matter:
      what is most recent at or below a prefix is the maximum of what was and what is announced. */
  lemma {:induction false} FreshRun(s: State, ops: seq<Op>, x: Key)
    requires Inv(s) && Ordered(s.tree) && RunFresh(s, ops)
    ensures Ordered(Run(s, ops).tree)
    ensures LatestBelow(Run(s, ops).tree, x) == Max(LatestBelow(s.tree, x), LatestOp(ops, x))
    decreases |ops|
  {
    if ops != [] {
      var k, ts := ops[0].key, ops[0].ts;
      var leaf, split := NextSlot(s.pool), NextSlot(Allocated(s.pool));
      StepInv(s, ops[0]);
      FreshIsNotStale(s.tree, k, ts);
      InsertOrdered(s.tree, k, ts, leaf, split);
      FreshInsert(s.tree, k, ts, leaf, split, x);
      FreshRun(Step(s, ops[0]), ops[1..], x);
    }
  }

  /** And that is the timestamp of every node. */
  lemma FreshTimestamps(s: State, ops: seq<Op>, n: Tree)
    requires Inv(s) && Ordered(s.tree) && RunFresh(s, ops) && Within(Run(s, ops).tree, n)
    ensures n.ts == Max(LatestBelow(s.tree, n.key), LatestOp(ops, n.key))
  {
    RunInv(s, ops);
    FreshRun(s, ops, n.key);
    NodeIsLatest(Run(s, ops).tree, n);
  }

  /** In any order, a prefix that is announced once keeps at least its own timestamp. */
  lemma {:induction false} OnceAnnounced(s: State, ops: seq<Op>, k: Key, ts: nat)
    requires Inv(s) && Announces(ops) && forall op | op in ops :: op.key != k
    requires AtKey(s.tree, k).Bin? && AtKey(s.tree, k).announced && AtKey(s.tree, k).ts >= ts
    ensures var n := AtKey(Run(s, ops).tree, k);
            n.Bin? && n.announced && n.ts >= ts
    decreases |ops|
  {
    if ops != [] {
      assert ops[0] in ops && forall op | op in ops[1..] :: op in ops;
      StepInv(s, ops[0]);
      OthersKept(s.tree, ops[0].key, ops[0].ts, NextSlot(s.pool), NextSlot(Allocated(s.pool)), k);
      OnceAnnounced(Step(s, ops[0]), ops[1..], k, ts);
    }
  }

  ghost predicate DistinctKeys(ops: seq<Op>)
    requires Announces(ops)
  {
    forall i, j | 0 <= i < j < |ops| :: ops[i].key != ops[j].key
  }

  /** So it is for each of several announcements of different prefixes. */
  lemma {:induction false} EachAnnounced(s: State, ops: seq<Op>, i: nat)
    requires Inv(s) && Announces(ops) && DistinctKeys(ops) && i < |ops|
    ensures var n := AtKey(Run(s, ops).tree, ops[i].key);
            n.Bin? && n.announced && n.ts >= ops[i].ts
    decreases |ops|
  {
    var op, rest := ops[0], ops[1..];
    assert op in ops && forall o | o in rest :: o in ops;
    StepInv(s, op);
    if i == 0 {
      forall o | o in rest ensures o.key != op.key {
        var j :| 0 <= j < |rest| && rest[j] == o;
        assert ops[j + 1] == o;
      }
      AnnouncedNode(s.tree, op.key, op.ts, NextSlot(s.pool), NextSlot(Allocated(s.pool)));
      OnceAnnounced(Step(s, op), rest, op.key, op.ts);
    } else {
      EachAnnounced(Step(s, op), rest, i - 1);
    }
  }

  /** Otherwise the order does matter: when the covering prefix comes last, it overwrites the
      timestamp of the fork that the other two have left. */
  lemma OrderMatters()
    ensures var lower, left, right := Announce([false], 3), Announce([false, false], 9), Announce([false, true], 8);
            && AtKey(Run(INITIAL, [left, right, lower]).tree, [false])
               == Bin(3, [false], true, 3, Bin(1, [false, false], true, 9, Empty, Empty),
                      Bin(2, [false, true], true, 8, Empty, Empty))
            && AtKey(Run(INITIAL, [lower, left, right]).tree, [false])
               == Bin(1, [false], true, 9, Bin(2, [false, false], true, 9, Empty, Empty),
                      Bin(3, [false, true], true, 8, Empty, Empty))
  {
    var lower, left, right := Announce([false], 3), Announce([false, false], 9), Announce([false, true], 8);
    CoveringLast(lower, left, right);
    CoveringFirst(lower, left, right);
  }

  lemma CoveringLast(lower: Op, left: Op, right: Op)
    requires lower == Announce([false], 3) && left == Announce([false, false], 9) && right == Announce([false, true], 8)
    ensures Run(INITIAL, [left, right, lower]).tree
            == Bin(3, [false], true, 3, Bin(1, [false, false], true, 9, Empty, Empty),
                   Bin(2, [false, true], true, 8, Empty, Empty))
  {
    var s1 := Step(INITIAL, left);
    assert s1.tree == Bin(1, [false, false], true, 9, Empty, Empty) && s1.pool == Pool([], 2);
    var s2 := Step(s1, right);
    assert CommonLen([false, true], [false, false]) == 1;
    assert [false, true][..1] == [false];
    assert s2.tree == Bin(3, [false], false, 9, s1.tree, Bin(2, [false, true], true, 8, Empty, Empty));
    RunThree(INITIAL, [left, right, lower]);
  }

  lemma CoveringFirst(lower: Op, left: Op, right: Op)
    requires lower == Announce([false], 3) && left == Announce([false, false], 9) && right == Announce([false, true], 8)
    ensures Run(INITIAL, [lower, left, right]).tree
            == Bin(1, [false], true, 9, Bin(2, [false, false], true, 9, Empty, Empty),
                   Bin(3, [false, true], true, 8, Empty, Empty))
  {
    var s1 := Step(INITIAL, lower);
    assert s1.tree == Bin(1, [false], true, 3, Empty, Empty) && s1.pool == Pool([], 2);
    var s2 := Step(s1, left);
    assert s2.tree == Bin(1, [false], true, 9, Bin(2, [false, false], true, 9, Empty, Empty), Empty);
    assert s2.pool == Pool([], 3);
    RunThree(INITIAL, [lower, left, right]);
  }

  lemma RunThree(s: State, ops: seq<Op>)
    requires |ops| == 3
    ensures Run(s, ops) == Step(Step(Step(s, ops[0]), ops[1]), ops[2])
  {
    assert ops == [ops[0]] + [ops[1]] + [ops[2]];
    RunConcat(s, [ops[0]] + [ops[1]], [ops[2]]);
    RunConcat(s, [ops[0]], [ops[1]]);
  }
}
