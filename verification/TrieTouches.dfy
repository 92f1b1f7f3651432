/** What the timestamp of a node means: the time of the last update at or below its prefix. */
module TrieTouches {
  import opened Prefixes
  import opened Trie
  import opened TrieSets
  import opened TrieStates
  import opened TrieLookup
  import opened TrieTimestamps

  /** Operation `i` of a run that starts from the announced set `a` is an update at or below `k`.
      A withdrawal of something that is not announced has no effect and does not count. */
  ghost predicate TouchesBelow(a: set<Key>, ops: seq<Op>, i: nat, k: Key)
    requires i < |ops|
  {
    match ops[i]
    case Announce(x, _) => k <= x
    case Retract(x, _) => k <= x && x in Effects(a, ops[..i])
    case SweepAll => false
  }

  ghost predicate LastTouchedAt(a: set<Key>, ops: seq<Op>, k: Key, ts: nat) {
    exists i: nat | i < |ops| ::
      && TouchesBelow(a, ops, i, k) && ops[i].ts == ts
      && forall j: nat | i < j < |ops| :: !TouchesBelow(a, ops, j, k)
  }

  /** Every reachable node carries the time of the last update at or below it. */
  ghost predicate Stamped(t: Tree, a: set<Key>, ops: seq<Op>) {
    forall n :: Within(t, n) ==> LastTouchedAt(a, ops, n.key, n.ts)
  }

  // ----- one more operation -----

  lemma TouchesBelowAppend(a: set<Key>, ops: seq<Op>, op: Op, i: nat, k: Key)
    requires i < |ops|
    ensures TouchesBelow(a, ops + [op], i, k) <==> TouchesBelow(a, ops, i, k)
  {
    assert (ops + [op])[..i] == ops[..i];
  }

  lemma TouchLater(a: set<Key>, ops: seq<Op>, op: Op, k: Key, ts: nat)
    requires LastTouchedAt(a, ops, k, ts) && !TouchesBelow(a, ops + [op], |ops|, k)
    ensures LastTouchedAt(a, ops + [op], k, ts)
  {
    var i: nat :| i < |ops| && TouchesBelow(a, ops, i, k) && ops[i].ts == ts
                  && forall j: nat | i < j < |ops| :: !TouchesBelow(a, ops, j, k);
    TouchesBelowAppend(a, ops, op, i, k);
    forall j: nat | i < j < |ops + [op]| ensures !TouchesBelow(a, ops + [op], j, k) {
      if j < |ops| {
        TouchesBelowAppend(a, ops, op, j, k);
      }
    }
  }

  lemma TouchNow(a: set<Key>, ops: seq<Op>, op: Op, k: Key)
    requires TouchesBelow(a, ops + [op], |ops|, k)
    ensures LastTouchedAt(a, ops + [op], k, op.ts)
  {
    assert (ops + [op])[|ops|] == op;
  }

  // ----- what a mutation does to timestamps -----

  lemma {:induction false} InsertStamps(t: Tree, k: Key, ts: nat, leaf: nat, split: nat, n: Tree) returns (m: Tree)
    requires WellFormed(t) && Ordered(t) && Latest(t) <= ts
    requires Within(Insert(t, k, ts, leaf, split).tree, n)
    ensures if n.key <= k then n.ts == ts else Within(t, m) && m.key == n.key && m.ts == n.ts
  {
    var u := Insert(t, k, ts, leaf, split).tree;
    m := n;
    InsertEarlyStop(t, k, ts, leaf, split);
    if t.Empty? {
    } else if t.key == k {
      if n != u {
        BelowIsLonger(u, n);
      }
    } else if t.key <= k {
      var b := k[|t.key|];
      if n == u {
      } else if Within(Child(u, b), n) {
        m := InsertStamps(Child(t, b), k, ts, leaf, split, n);
      } else {
        OtherSide(t, k, !b, n);
      }
    } else if k <= t.key {
      PromoteStamps(t, k, ts, leaf, n);
    } else {
      SplitStamps(t, k, ts, leaf, split, n);
    }
  }

  lemma PromoteStamps(t: Tree, k: Key, ts: nat, leaf: nat, n: Tree)
    requires WellFormed(t) && t.Bin? && t.ts <= ts && k < t.key && Within(Promote(t, k, ts, leaf), n)
    ensures if n.key <= k then n.ts == ts else Within(t, n)
  {
    if n != Promote(t, k, ts, leaf) {
      NotAbove(t, k, n);
    }
  }

  lemma SplitStamps(t: Tree, k: Key, ts: nat, leaf: nat, split: nat, n: Tree)
    requires WellFormed(t) && t.Bin? && t.ts <= ts && !(t.key <= k) && !(k <= t.key)
    requires Within(SplitOff(t, k, ts, leaf, split), n)
    ensures if n.key <= k then n.ts == ts else Within(t, n)
  {
    var u := SplitOff(t, k, ts, leaf, split);
    var b := SplitChildren(t, k, ts, leaf, split);
    if n != u {
      WithinEither(u, b, n);
      if Within(t, n) {
        NotAbove(t, k, n);
      } else {
        WithinLeaf(leaf, k, ts, n);
      }
    }
  }

  lemma WithinEither(t: Tree, b: bool, n: Tree)
    requires t.Bin? && Within(t, n) && n != t
    ensures Within(Child(t, b), n) || Within(Child(t, !b), n)
  {
  }

  lemma WithinLeaf(leaf: nat, k: Key, ts: nat, n: Tree)
    requires Within(Leaf(leaf, k, ts), n)
    ensures n == Leaf(leaf, k, ts)
  {
    assert !Within(Empty, n);
  }

  lemma BelowIsLonger(t: Tree, n: Tree)
    requires t.Bin? && n != t && Within(t, n)
    requires Below(t.left, t.key + [false]) && WellFormed(t.left)
    requires Below(t.right, t.key + [true]) && WellFormed(t.right)
    ensures !(n.key <= t.key)
  {
    var b := Within(t.right, n);
    WithinBelow(Child(t, b), t.key + [b], n);
  }

  lemma OtherSide(t: Tree, k: Key, b: bool, n: Tree)
    requires WellFormed(t) && t.Bin? && t.key < k && b != k[|t.key|] && Within(Child(t, b), n)
    ensures !(n.key <= k)
  {
    WithinBelow(Child(t, b), t.key + [b], n);
    assert n.key[|t.key|] == (t.key + [b])[|t.key|];
  }

  lemma NotAbove(t: Tree, k: Key, n: Tree)
    requires WellFormed(t) && t.Bin? && !(t.key <= k) && Within(t, n)
    ensures !(n.key <= k)
  {
    WithinBelow(t, [], n);
  }

  lemma {:induction false} WithdrawStamps(t: Tree, k: Key, ts: nat, n: Tree) returns (m: Tree)
    requires WellFormed(t) && Distinct(t) && Ordered(t) && Latest(t) <= ts && k in Announced(t)
    requires Within(Withdraw(t, k, ts).tree, n)
    ensures if n.key <= k then n.ts == ts else Within(t, m) && m.key == n.key && m.ts == n.ts
  {
    var u := Withdraw(t, k, ts).tree;
    m := n;
    WithdrawEarlyStop(t, k, ts);
    WithdrawFinds(t, k, ts);
    AnnouncedOnPath(t, k);
    if t.key == k {
      if n != u {
        BelowIsLonger(u, n);
      }
    } else {
      var b := k[|t.key|];
      if n == u {
      } else if Within(Child(u, b), n) {
        m := WithdrawStamps(Child(t, b), k, ts, n);
      } else {
        OtherSide(t, k, !b, n);
      }
    }
  }

  lemma {:induction false} SweepStamps(t: Tree, n: Tree) returns (m: Tree)
    requires Within(Sweep(t), n)
    ensures Within(t, m) && m.key == n.key && m.ts == n.ts
  {
    if t.Bin? && n == Sweep(t) && t.(left := Sweep(t.left), right := Sweep(t.right)) == n {
      m := t;
    } else if Within(Sweep(t.left), n) {
      m := SweepStamps(t.left, n);
    } else {
      m := SweepStamps(t.right, n);
    }
  }

  // ----- runs -----

  lemma StepStamped(s: State, op: Op, now: nat, a: set<Key>, past: seq<Op>)
    requires Inv(s) && Ordered(s.tree) && Latest(s.tree) <= now && (op.SweepAll? || op.ts == now)
    requires Stamped(s.tree, a, past) && Announced(s.tree) == Effects(a, past)
    ensures Stamped(Step(s, op).tree, a, past + [op])
  {
    assert (past + [op])[..|past|] == past;
    forall n | Within(Step(s, op).tree, n) ensures LastTouchedAt(a, past + [op], n.key, n.ts) {
      NodeStamped(s, op, now, a, past, n);
    }
  }

  lemma NodeStamped(s: State, op: Op, now: nat, a: set<Key>, past: seq<Op>, n: Tree)
    requires Inv(s) && Ordered(s.tree) && Latest(s.tree) <= now && (op.SweepAll? || op.ts == now)
    requires Stamped(s.tree, a, past) && Announced(s.tree) == Effects(a, past)
    requires Within(Step(s, op).tree, n)
    ensures LastTouchedAt(a, past + [op], n.key, n.ts)
  {
    assert (past + [op])[..|past|] == past;
    if TouchesBelow(a, past + [op], |past|, n.key) {
      TouchNow(a, past, op, n.key);
      StampIsNow(s, op, n);
    } else {
      var m := StampIsOld(s, op, n);
      assert LastTouchedAt(a, past, m.key, m.ts);
      TouchLater(a, past, op, n.key, n.ts);
    }
  }

  lemma StampIsNow(s: State, op: Op, n: Tree)
    requires Inv(s) && Ordered(s.tree) && !op.SweepAll? && Latest(s.tree) <= op.ts && n.Bin? && n.key <= op.key
    requires op.Announce? || op.key in Announced(s.tree)
    requires Within(Step(s, op).tree, n)
    ensures n.ts == op.ts
  {
    match op
    case Announce(k, ts) => var _ := InsertStamps(s.tree, k, ts, NextSlot(s.pool), NextSlot(Allocated(s.pool)), n);
    case Retract(k, ts) => var _ := WithdrawStamps(s.tree, k, ts, n);
  }

  lemma StampIsOld(s: State, op: Op, n: Tree) returns (m: Tree)
    requires Inv(s) && Ordered(s.tree) && (op.SweepAll? || Latest(s.tree) <= op.ts)
    requires Within(Step(s, op).tree, n)
    requires op.Announce? ==> !(n.key <= op.key)
    requires op.Retract? ==> !(n.key <= op.key) || op.key !in Announced(s.tree)
    ensures Within(s.tree, m) && m.key == n.key && m.ts == n.ts
  {
    match op
    case Announce(k, ts) => m := InsertStamps(s.tree, k, ts, NextSlot(s.pool), NextSlot(Allocated(s.pool)), n);
    case Retract(k, ts) =>
      if k in Announced(s.tree) {
        m := WithdrawStamps(s.tree, k, ts, n);
      } else {
        WithdrawFinds(s.tree, k, ts);
        m := n;
      }
    case SweepAll => m := SweepStamps(s.tree, n);
  }

  /** While updates arrive in timestamp order, every reachable node tells when something at or
      below it was last updated. */
  lemma {:induction false} RunStamped(s: State, ops: seq<Op>, since: nat, a: set<Key>, past: seq<Op>)
    requires Inv(s) && Ordered(s.tree) && Latest(s.tree) <= since && Chronological(ops, since)
    requires Stamped(s.tree, a, past) && Announced(s.tree) == Effects(a, past)
    ensures Stamped(Run(s, ops).tree, a, past + ops)
    decreases |ops|
  {
    if ops == [] {
      assert past + ops == past;
    } else {
      var now := if ops[0].SweepAll? then since else ops[0].ts;
      StepInv(s, ops[0]);
      StepOrdered(s, ops[0], now);
      StepStamped(s, ops[0], now, a, past);
      StepAnnounced(s, ops[0]);
      EffectsConcat(a, past, [ops[0]]);
      RunOne(s, ops[0]);
      RunStamped(Step(s, ops[0]), ops[1..], now, a, past + [ops[0]]);
      assert past + ops == past + [ops[0]] + ops[1..];
    }
  }

  lemma ReachableStamped(ops: seq<Op>)
    requires Chronological(ops, 0)
    ensures Stamped(Run(INITIAL, ops).tree, {}, ops)
  {
    RunStamped(INITIAL, ops, 0, {}, []);
    assert [] + ops == ops;
  }
}
