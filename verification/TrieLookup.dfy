/** Longest-prefix match. */
module TrieLookup {
  import opened Prefixes
  import opened Trie
  import opened TrieSets
  import opened TrieStates

  /** A threshold above every prefix length: only announced nodes qualify. */
  const NEVER := MAX_PREFIX_LEN + 1

  predicate Eligible(t: Tree, threshold: nat)
    requires t.Bin?
  {
    t.announced || |t.key| >= threshold
  }

  /** The deepest node on the walk towards `a` that is announced, or unannounced but at
      least `threshold` bits long. */
  function Best(t: Tree, a: Key, threshold: nat): Tree {
    if t.Empty? || !(t.key <= a) then Empty
    else
      var deeper := if |t.key| < |a| then Best(Child(t, a[|t.key|]), a, threshold) else Empty;
      if deeper.Bin? then deeper else if Eligible(t, threshold) then t else Empty
  }

  /** All the nodes of a trie, as subtrees. */
  ghost predicate Within(t: Tree, n: Tree) {
    n.Bin? && t.Bin? && (n == t || Within(t.left, n) || Within(t.right, n))
  }

  lemma {:induction false} WithinBelow(t: Tree, base: Key, n: Tree)
    requires WellFormed(t) && Below(t, base) && Within(t, n)
    ensures base <= t.key <= n.key
    ensures WellFormed(n)
  {
    if n != t {
      if Within(t.left, n) {
        WithinBelow(t.left, t.key + [false], n);
      } else {
        WithinBelow(t.right, t.key + [true], n);
      }
    }
  }

  /** The walk finds the deepest eligible node that covers the address. */
  lemma {:induction false} BestIsDeepest(t: Tree, a: Key, threshold: nat, n: Tree)
    requires WellFormed(t)
    ensures var r := Best(t, a, threshold);
            && (r.Bin? ==> Within(t, r) && r.key <= a && Eligible(r, threshold))
            && (Within(t, n) && n.key <= a && Eligible(n, threshold) ==> r.Bin? && |n.key| <= |r.key|)
  {
    if t.Bin? && t.key <= a {
      if |t.key| < |a| {
        var b := a[|t.key|];
        BestIsDeepest(Child(t, b), a, threshold, n);
        var deeper := Best(Child(t, b), a, threshold);
        if deeper.Bin? {
          WithinBelow(Child(t, b), t.key + [b], deeper);
        }
      }
      if Within(t, n) && n != t && n.key <= a {
        WithinOnPath(t, n, a);
      }
    } else if Within(t, n) {
      WithinBelow(t, [], n);
    }
  }

  lemma WithinOnPath(t: Tree, n: Tree, a: Key)
    requires WellFormed(t) && Within(t, n) && n != t && n.key <= a
    ensures |t.key| < |a| && Within(Child(t, a[|t.key|]), n)
  {
    var b := Within(t.right, n);
    WithinBelow(Child(t, b), t.key + [b], n);
    assert a[|t.key|] == n.key[|t.key|] == (t.key + [b])[|t.key|];
  }

  lemma {:induction false} WithinAnnounced(t: Tree, k: Key)
    ensures k in Announced(t) <==> exists n :: Within(t, n) && n.announced && n.key == k
  {
    if t.Bin? {
      WithinAnnounced(t.left, k);
      WithinAnnounced(t.right, k);
      if k in Announced(t) {
        if t.announced && t.key == k {
          assert Within(t, t);
        } else if k in Announced(t.left) {
          var n :| Within(t.left, n) && n.announced && n.key == k;
          assert Within(t, n);
        } else {
          var n :| Within(t.right, n) && n.announced && n.key == k;
          assert Within(t, n);
        }
      }
    }
  }

  /** A key names one node at most. */
  lemma {:induction false} WithinIsAtKey(t: Tree, n: Tree)
    requires WellFormed(t) && Within(t, n)
    ensures AtKey(t, n.key) == n
  {
    if n != t {
      WithinBelow(t, [], n);
      var b := Within(t.right, n);
      WithinBelow(Child(t, b), t.key + [b], n);
      assert n.key[|t.key|] == (t.key + [b])[|t.key|];
      WithinIsAtKey(Child(t, b), n);
    }
  }

  lemma {:induction false} AtKeyIsWithin(t: Tree, k: Key)
    requires AtKey(t, k).Bin?
    ensures Within(t, AtKey(t, k)) && AtKey(t, k).key == k
  {
    if t.key != k {
      AtKeyIsWithin(Child(t, k[|t.key|]), k);
    }
  }

  /** `k` is the longest member of `announced` that covers the address `a`. */
  ghost predicate LongestMatch(announced: set<Key>, a: Key, k: Key) {
    && k in announced && k <= a
    && forall x :: x in announced && x <= a ==> |x| <= |k|
  }

  /** Lookup is longest-prefix match on the announced set, and nothing else about the
      trie matters to it. */
  lemma LookupIsLongestMatch(t: Tree, a: Key)
    requires WellFormed(t) && |a| == MAX_PREFIX_LEN
    ensures var r := Best(t, a, NEVER);
            && (r.Bin? ==> r.announced && LongestMatch(Announced(t), a, r.key))
            && (r.Empty? ==> forall x :: x in Announced(t) ==> !(x <= a))
  {
    var r := Best(t, a, NEVER);
    BestIsDeepest(t, a, NEVER, Empty);
    if r.Bin? {
      WithinBelow(t, [], r);
      WithinAnnounced(t, r.key);
    }
    forall x | x in Announced(t) && x <= a ensures r.Bin? && |x| <= |r.key| {
      WithinAnnounced(t, x);
      var n :| Within(t, n) && n.announced && n.key == x;
      BestIsDeepest(t, a, NEVER, n);
    }
  }

  /** Two tries with the same announced set answer every lookup with the same prefix. */
  lemma LookupDependsOnAnnounced(t: Tree, u: Tree, a: Key)
    requires WellFormed(t) && WellFormed(u) && Announced(t) == Announced(u) && |a| == MAX_PREFIX_LEN
    ensures var r, q := Best(t, a, NEVER), Best(u, a, NEVER);
            (r.Bin? <==> q.Bin?) && (r.Bin? ==> r.key == q.key)
  {
    LookupIsLongestMatch(t, a);
    LookupIsLongestMatch(u, a);
    var r, q := Best(t, a, NEVER), Best(u, a, NEVER);
    if r.Bin? && q.Bin? {
      assert |r.key| == |q.key|;
      assert r.key == a[..|r.key|] == q.key;
    }
  }

  /** In every reachable state, lookup is longest-prefix match on the announcements that
      have not been withdrawn since. */
  lemma RunLookup(ops: seq<Op>, a: Key)
    requires |a| == MAX_PREFIX_LEN
    ensures var r := Best(Run(INITIAL, ops).tree, a, NEVER);
            && (r.Bin? ==> LongestMatch(Effects({}, ops), a, r.key))
            && (r.Empty? ==> forall x :: x in Effects({}, ops) ==> !(x <= a))
  {
    RunInv(INITIAL, ops);
    RunAnnounced(INITIAL, ops);
    LookupIsLongestMatch(Run(INITIAL, ops).tree, a);
  }

  // ----- limited lookup -----

  /** Lowering the threshold only deepens the answer. */
  lemma LimitedLookupDeepens(t: Tree, a: Key, lo: nat, hi: nat)
    requires WellFormed(t) && lo <= hi
    ensures var r, q := Best(t, a, hi), Best(t, a, lo);
            r.Bin? ==> q.Bin? && |r.key| <= |q.key| && r.key <= q.key
  {
    var r, q := Best(t, a, hi), Best(t, a, lo);
    BestIsDeepest(t, a, hi, Empty);
    BestIsDeepest(t, a, lo, r);
    if r.Bin? {
      assert r.key == a[..|r.key|] && q.key == a[..|q.key|];
    }
  }

  /** Thresholds beyond every prefix length make it plain lookup. */
  lemma {:induction false} LimitedLookupIsLookup(t: Tree, a: Key, threshold: nat)
    requires WellFormed(t) && threshold > MAX_PREFIX_LEN
    ensures Best(t, a, threshold) == Best(t, a, NEVER)
  {
    if t.Bin? && t.key <= a && |t.key| < |a| {
      LimitedLookupIsLookup(Child(t, a[|t.key|]), a, threshold);
    }
  }

  // ----- sweeping -----

  /** A sweep does not move the answer of any lookup to another slot. */
  lemma {:induction false} SweepKeepsLookup(t: Tree, a: Key)
    requires WellFormed(t)
    ensures var r, q := Best(t, a, NEVER), Best(Sweep(t), a, NEVER);
            && (r.Bin? <==> q.Bin?)
            && (r.Bin? ==> r.slot == q.slot && r.key == q.key && r.announced == q.announced && r.ts == q.ts)
  {
    if t.Bin? {
      SweepWellFormed(t.left, t.key + [false]);
      SweepWellFormed(t.right, t.key + [true]);
      if t.key <= a {
        if |t.key| < |a| {
          SweepKeepsLookup(Child(t, a[|t.key|]), a);
          BestNotOnOtherBranch(Sweep(Child(t, !a[|t.key|])), t.key, a);
        } else {
          BestNotDeeper(Sweep(t.left), a);
          BestNotDeeper(Sweep(t.right), a);
        }
      } else {
        BestUncovered(Sweep(t), t.key, a);
      }
    }
  }

  lemma BestNotOnOtherBranch(u: Tree, k: Key, a: Key)
    requires |k| < |a| && Below(u, k + [!a[|k|]])
    ensures Best(u, a, NEVER).Empty?
  {
    if u.Bin? {
      assert u.key[|k|] == (k + [!a[|k|]])[|k|];
    }
  }

  lemma BestNotDeeper(u: Tree, a: Key)
    requires u.Bin? ==> |a| < |u.key|
    ensures Best(u, a, NEVER).Empty?
  {
  }

  lemma BestUncovered(u: Tree, k: Key, a: Key)
    requires Below(u, k) && !(k <= a)
    ensures Best(u, a, NEVER).Empty?
  {
    if u.Bin? && u.key <= a {
      PrefixTransitive(k, u.key, a);
    }
  }

  // ----- depth -----

  function Height(t: Tree): nat {
    if t.Empty? then 0 else 1 + Max(Height(t.left), Height(t.right))
  }

  /** Every descent visits at most 129 nodes: each level is at least one bit longer. */
  lemma {:induction false} HeightBound(t: Tree, base: Key)
    requires WellFormed(t) && Below(t, base) && |base| <= MAX_PREFIX_LEN
    ensures Height(t) <= MAX_PREFIX_LEN + 1 - |base|
  {
    if t.Bin? {
      if t.left.Bin? {
        HeightBound(t.left, t.key + [false]);
      }
      if t.right.Bin? {
        HeightBound(t.right, t.key + [true]);
      }
    }
  }
}
