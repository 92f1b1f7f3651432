/** What insert, withdraw and sweep do to the announced set, the slots in use and the
    tallies of a trie, and that they keep it well formed. */
module TrieSets {
  import opened Prefixes
  import opened Trie

  // ----- a node and its two branches -----

  lemma Parts(t: Tree, b: bool)
    requires t.Bin?
    ensures Announced(t) == (if t.announced then {t.key} else {}) + Announced(Child(t, b)) + Announced(Child(t, !b))
    ensures AnnouncedCount(t)
            == (if t.announced then 1 else 0) + AnnouncedCount(Child(t, b)) + AnnouncedCount(Child(t, !b))
    ensures Slots(t) == {t.slot} + Slots(Child(t, b)) + Slots(Child(t, !b))
    ensures Size(t) == 1 + Size(Child(t, b)) + Size(Child(t, !b))
  {
  }

  lemma WellFormedParts(t: Tree, b: bool)
    requires t.Bin?
    ensures WellFormed(t) <==>
            && |t.key| <= MAX_PREFIX_LEN
            && Below(Child(t, b), t.key + [b]) && WellFormed(Child(t, b))
            && Below(Child(t, !b), t.key + [!b]) && WellFormed(Child(t, !b))
  {
  }

  lemma DistinctParts(t: Tree, b: bool)
    requires t.Bin?
    ensures Distinct(t) <==>
            && t.slot != 0
            && t.slot !in Slots(Child(t, b)) && t.slot !in Slots(Child(t, !b))
            && Slots(Child(t, b)) !! Slots(Child(t, !b))
            && Distinct(Child(t, b)) && Distinct(Child(t, !b))
  {
  }

  lemma LeafParts(slot: nat, k: Key, ts: nat)
    ensures var u := Leaf(slot, k, ts);
            && Announced(u) == {k} && AnnouncedCount(u) == 1
            && Slots(u) == {slot} && Size(u) == 1
            && (|k| <= MAX_PREFIX_LEN ==> WellFormed(u))
            && (slot != 0 ==> Distinct(u))
  {
  }

  // ----- where a key can be -----

  lemma PrefixTransitive(a: Key, b: Key, c: Key)
    requires a <= b <= c
    ensures a <= c
  {
  }

  lemma {:induction false} AnnouncedBelow(t: Tree, base: Key, x: Key)
    requires WellFormed(t) && Below(t, base) && x in Announced(t)
    ensures base <= t.key <= x
  {
    if x in Announced(t.left) {
      AnnouncedBelow(t.left, t.key + [false], x);
    } else if x in Announced(t.right) {
      AnnouncedBelow(t.right, t.key + [true], x);
    }
  }

  lemma AnnouncedInChild(t: Tree, b: bool, x: Key)
    requires WellFormed(t) && t.Bin? && x in Announced(Child(t, b))
    ensures t.key < x && x[|t.key|] == b
  {
    AnnouncedBelow(Child(t, b), t.key + [b], x);
    assert (t.key + [b])[|t.key|] == b;
  }

  /** The path of branches towards `k` is the only place where `k` can be announced. */
  lemma AnnouncedOnPath(t: Tree, k: Key)
    requires WellFormed(t) && t.Bin?
    ensures k in Announced(t) <==>
            if k == t.key then t.announced
            else t.key <= k && k in Announced(Child(t, k[|t.key|]))
  {
    if k in Announced(t.left) {
      AnnouncedInChild(t, false, k);
    }
    if k in Announced(t.right) {
      AnnouncedInChild(t, true, k);
    }
  }

  lemma {:induction false} AnnouncedCard(t: Tree)
    requires WellFormed(t)
    ensures |Announced(t)| == AnnouncedCount(t)
  {
    if t.Bin? {
      AnnouncedCard(t.left);
      AnnouncedCard(t.right);
      forall x | x in Announced(t.left) ensures x != t.key && x !in Announced(t.right) {
        AnnouncedInChild(t, false, x);
        if x in Announced(t.right) {
          AnnouncedInChild(t, true, x);
        }
      }
      forall x | x in Announced(t.right) ensures x != t.key {
        AnnouncedInChild(t, true, x);
      }
    }
  }

  lemma {:induction false} SlotsCard(t: Tree)
    requires Distinct(t)
    ensures |Slots(t)| == Size(t)
    ensures 0 !in Slots(t)
  {
    if t.Bin? {
      SlotsCard(t.left);
      SlotsCard(t.right);
    }
  }

  // ----- insert -----

  lemma PromoteSets(t: Tree, k: Key, ts: nat, leaf: nat)
    requires t.Bin? && k < t.key
    ensures var u := Promote(t, k, ts, leaf);
            && Announced(u) == Announced(t) + {k} && AnnouncedCount(u) == AnnouncedCount(t) + 1
            && Slots(u) == Slots(t) + {leaf} && Size(u) == Size(t) + 1
            && (Distinct(t) && leaf !in Slots(t) + {0} ==> Distinct(u))
  {
    var u, b := Promote(t, k, ts, leaf), t.key[|k|];
    assert Child(u, b) == t && Child(u, !b) == Empty;
    Parts(u, b);
    DistinctParts(u, b);
  }

  lemma PromoteWellFormed(t: Tree, k: Key, ts: nat, leaf: nat)
    requires t.Bin? && k < t.key && WellFormed(t)
    ensures WellFormed(Promote(t, k, ts, leaf))
  {
    WellFormedParts(Promote(t, k, ts, leaf), t.key[|k|]);
  }

  lemma SplitChildren(t: Tree, k: Key, ts: nat, leaf: nat, split: nat) returns (b: bool)
    requires t.Bin? && !(t.key <= k) && !(k <= t.key)
    ensures var u := SplitOff(t, k, ts, leaf, split);
            && u.Bin? && Child(u, b) == t && Child(u, !b) == Leaf(leaf, k, ts)
            && u.slot == split && !u.announced && u.ts == Max(t.ts, ts)
            && CommonLen(k, t.key) < |k| && CommonLen(k, t.key) < |t.key|
            && u.key == k[..CommonLen(k, t.key)] && u.key + [b] <= t.key && u.key + [!b] <= k
  {
    CommonLenCovers(k, t.key);
    var n := CommonLen(k, t.key);
    b := t.key[n];
    assert k[..n + 1] == k[..n] + [k[n]] && t.key[..n + 1] == k[..n] + [t.key[n]];
  }

  lemma SplitSets(t: Tree, k: Key, ts: nat, leaf: nat, split: nat)
    requires t.Bin? && !(t.key <= k) && !(k <= t.key)
    ensures var u := SplitOff(t, k, ts, leaf, split);
            && Announced(u) == Announced(t) + {k} && AnnouncedCount(u) == AnnouncedCount(t) + 1
            && Slots(u) == Slots(t) + {leaf, split} && Size(u) == Size(t) + 2
            && (Distinct(t) && leaf != split && {leaf, split} !! Slots(t) + {0} ==> Distinct(u))
  {
    var b := SplitChildren(t, k, ts, leaf, split);
    var u := SplitOff(t, k, ts, leaf, split);
    LeafParts(leaf, k, ts);
    Parts(u, b);
    DistinctParts(u, b);
  }

  lemma SplitWellFormed(t: Tree, k: Key, ts: nat, leaf: nat, split: nat)
    requires t.Bin? && !(t.key <= k) && !(k <= t.key) && WellFormed(t) && |k| <= MAX_PREFIX_LEN
    ensures WellFormed(SplitOff(t, k, ts, leaf, split))
  {
    var b := SplitChildren(t, k, ts, leaf, split);
    LeafParts(leaf, k, ts);
    WellFormedParts(SplitOff(t, k, ts, leaf, split), b);
  }

  lemma SplitBelow(t: Tree, k: Key, ts: nat, leaf: nat, split: nat, base: Key)
    requires t.Bin? && !(t.key <= k) && !(k <= t.key) && base <= k && base <= t.key
    ensures Below(SplitOff(t, k, ts, leaf, split), base)
  {
    CommonLenCovers(k, t.key);
    var n := CommonLen(k, t.key);
    assert forall i | 0 <= i < |base| :: k[i] == base[i] == t.key[i];
  }

  lemma {:induction false} InsertWellFormed(t: Tree, k: Key, ts: nat, leaf: nat, split: nat, base: Key)
    requires WellFormed(t) && Below(t, base) && base <= k && |k| <= MAX_PREFIX_LEN
    ensures var u := Insert(t, k, ts, leaf, split).tree;
            WellFormed(u) && Below(u, base)
  {
    if t.Empty? {
      LeafParts(leaf, k, ts);
    } else if t.key == k {
    } else if t.key <= k {
      var b := k[|t.key|];
      InsertWellFormed(Child(t, b), k, ts, leaf, split, t.key + [b]);
      WellFormedParts(t, b);
      WellFormedParts(Insert(t, k, ts, leaf, split).tree, b);
    } else if k <= t.key {
      PromoteWellFormed(t, k, ts, leaf);
    } else {
      SplitWellFormed(t, k, ts, leaf, split);
      SplitBelow(t, k, ts, leaf, split, base);
    }
  }

  lemma {:induction false} InsertAnnounced(t: Tree, k: Key, ts: nat, leaf: nat, split: nat)
    ensures Announced(Insert(t, k, ts, leaf, split).tree) == Announced(t) + {k}
  {
    if t.Empty? {
      LeafParts(leaf, k, ts);
    } else if t.key == k {
    } else if t.key <= k {
      var b := k[|t.key|];
      InsertAnnounced(Child(t, b), k, ts, leaf, split);
      Parts(t, b);
      Parts(Insert(t, k, ts, leaf, split).tree, b);
    } else if k <= t.key {
      PromoteSets(t, k, ts, leaf);
    } else {
      SplitSets(t, k, ts, leaf, split);
    }
  }

  lemma {:induction false} InsertCount(t: Tree, k: Key, ts: nat, leaf: nat, split: nat)
    requires WellFormed(t)
    ensures AnnouncedCount(Insert(t, k, ts, leaf, split).tree)
            == AnnouncedCount(t) + if k in Announced(t) then 0 else 1
  {
    if t.Empty? {
      LeafParts(leaf, k, ts);
    } else {
      AnnouncedOnPath(t, k);
      if t.key == k {
      } else if t.key <= k {
        var b := k[|t.key|];
        InsertCount(Child(t, b), k, ts, leaf, split);
        Parts(t, b);
        Parts(Insert(t, k, ts, leaf, split).tree, b);
      } else if k <= t.key {
        PromoteSets(t, k, ts, leaf);
      } else {
        SplitSets(t, k, ts, leaf, split);
      }
    }
  }

  function NewSlots(needed: nat, leaf: nat, split: nat): set<nat> {
    if needed == 0 then {} else if needed == 1 then {leaf} else {leaf, split}
  }

  /** Fresh slots in one branch are fresh slots in the trie. */
  lemma DescendSlots(t: Tree, u: Tree, b: bool, more: set<nat>)
    requires t.Bin? && u.Bin? && u.slot == t.slot && Child(u, !b) == Child(t, !b)
    requires Distinct(t) && Distinct(Child(u, b)) && more !! Slots(t)
    requires Slots(Child(u, b)) == Slots(Child(t, b)) + more
    ensures Distinct(u) && Slots(u) == Slots(t) + more
    ensures Size(u) - Size(t) == Size(Child(u, b)) - Size(Child(t, b))
  {
    DistinctParts(t, b);
    DistinctParts(u, b);
    Parts(t, b);
    Parts(u, b);
    FreshSlots(t.slot, Slots(Child(t, b)), Slots(Child(t, !b)), more);
  }

  lemma FreshSlots(slot: nat, branch: set<nat>, other: set<nat>, more: set<nat>)
    requires slot !in branch && branch !! other && more !! {slot} + branch + other
    ensures slot !in branch + more && branch + more !! other
    ensures {slot} + (branch + more) + other == {slot} + branch + other + more
  {
  }

  lemma {:induction false} InsertSlots(t: Tree, k: Key, ts: nat, leaf: nat, split: nat)
    requires Distinct(t) && leaf != split && {leaf, split} !! Slots(t) + {0}
    ensures var u := Insert(t, k, ts, leaf, split).tree;
            && Distinct(u)
            && Slots(u) == Slots(t) + NewSlots(Needed(t, k), leaf, split)
            && Size(u) == Size(t) + Needed(t, k)
  {
    if t.Empty? {
      LeafParts(leaf, k, ts);
    } else if t.key == k {
    } else if t.key <= k {
      var b := k[|t.key|];
      DistinctParts(t, b);
      Parts(t, b);
      InsertSlots(Child(t, b), k, ts, leaf, split);
      DescendSlots(t, Insert(t, k, ts, leaf, split).tree, b, NewSlots(Needed(t, k), leaf, split));
    } else if k <= t.key {
      PromoteSets(t, k, ts, leaf);
    } else {
      SplitSets(t, k, ts, leaf, split);
    }
  }

  // ----- withdraw -----

  lemma {:induction false} WithdrawFinds(t: Tree, k: Key, ts: nat)
    requires WellFormed(t) && Distinct(t)
    ensures Withdraw(t, k, ts).target != 0 <==> k in Announced(t)
    ensures k !in Announced(t) ==> Withdraw(t, k, ts) == NotFound(t)
  {
    if t.Bin? {
      AnnouncedOnPath(t, k);
      if t.key != k && t.key <= k {
        WithdrawFinds(Child(t, k[|t.key|]), k, ts);
      }
    }
  }

  lemma {:induction false} WithdrawWellFormed(t: Tree, k: Key, ts: nat)
    requires WellFormed(t)
    ensures var u := Withdraw(t, k, ts).tree;
            && WellFormed(u)
            && (t.Bin? <==> u.Bin?)
            && (t.Bin? ==> u.key == t.key && u.slot == t.slot)
  {
    if t.Bin? && t.key != k && t.key <= k {
      var b := k[|t.key|];
      WithdrawWellFormed(Child(t, b), k, ts);
      WellFormedParts(t, b);
      WellFormedParts(Withdraw(t, k, ts).tree, b);
    }
  }

  lemma {:induction false} WithdrawAnnounced(t: Tree, k: Key, ts: nat)
    requires WellFormed(t) && Distinct(t)
    ensures Announced(Withdraw(t, k, ts).tree) == Announced(t) - {k}
  {
    WithdrawFinds(t, k, ts);
    if k in Announced(t) {
      AnnouncedOnPath(t, k);
      if t.key == k {
        OnlyAtRoot(t);
      } else {
        var b := k[|t.key|];
        WithdrawAnnounced(Child(t, b), k, ts);
        Parts(t, b);
        Parts(Withdraw(t, k, ts).tree, b);
        NotInOtherChild(t, b, k);
      }
    }
  }

  lemma {:induction false} WithdrawCount(t: Tree, k: Key, ts: nat)
    requires WellFormed(t) && Distinct(t)
    ensures AnnouncedCount(Withdraw(t, k, ts).tree)
            == AnnouncedCount(t) - if k in Announced(t) then 1 else 0
  {
    WithdrawFinds(t, k, ts);
    if k in Announced(t) {
      AnnouncedOnPath(t, k);
      if t.key != k {
        var b := k[|t.key|];
        WithdrawCount(Child(t, b), k, ts);
        Parts(t, b);
        Parts(Withdraw(t, k, ts).tree, b);
      }
    }
  }

  lemma NotInOtherChild(t: Tree, b: bool, k: Key)
    requires WellFormed(t) && t.Bin? && k in Announced(Child(t, b))
    ensures k !in Announced(Child(t, !b)) && k != t.key
  {
    AnnouncedInChild(t, b, k);
    if k in Announced(Child(t, !b)) {
      AnnouncedInChild(t, !b, k);
    }
  }

  lemma OnlyAtRoot(t: Tree)
    requires WellFormed(t) && t.Bin?
    ensures t.key !in Announced(t.left) && t.key !in Announced(t.right)
  {
    if t.key in Announced(t.left) {
      AnnouncedInChild(t, false, t.key);
    }
    if t.key in Announced(t.right) {
      AnnouncedInChild(t, true, t.key);
    }
  }

  lemma {:induction false} WithdrawSlots(t: Tree, k: Key, ts: nat)
    requires Distinct(t)
    ensures var u := Withdraw(t, k, ts).tree;
            Distinct(u) && Slots(u) == Slots(t) && Size(u) == Size(t)
  {
    if t.Bin? && t.key != k && t.key <= k {
      var b := k[|t.key|];
      WithdrawSlots(Child(t, b), k, ts);
      var u := Withdraw(t, k, ts).tree;
      Parts(t, b);
      Parts(u, b);
      DistinctParts(t, b);
      DistinctParts(u, b);
    }
  }

  // ----- sweep -----

  lemma {:induction false} SweepWellFormed(t: Tree, base: Key)
    requires WellFormed(t) && Below(t, base)
    ensures WellFormed(Sweep(t)) && Below(Sweep(t), base)
  {
    if t.Bin? {
      SweepWellFormed(t.left, t.key + [false]);
      SweepWellFormed(t.right, t.key + [true]);
    }
  }

  lemma RejoinSets(t: Tree, l: Tree, r: Tree)
    requires t.Bin?
    ensures var u := Rejoin(t, l, r);
            && Announced(u) == (if t.announced then {t.key} else {}) + Announced(l) + Announced(r)
            && AnnouncedCount(u) == (if t.announced then 1 else 0) + AnnouncedCount(l) + AnnouncedCount(r)
  {
  }

  lemma {:induction false} SweepAnnounced(t: Tree)
    ensures Announced(Sweep(t)) == Announced(t)
    ensures AnnouncedCount(Sweep(t)) == AnnouncedCount(t)
  {
    if t.Bin? {
      SweepAnnounced(t.left);
      SweepAnnounced(t.right);
      RejoinSets(t, Sweep(t.left), Sweep(t.right));
    }
  }

  lemma RejoinSlots(t: Tree, l: Tree, r: Tree)
    requires t.Bin? && Distinct(l) && Distinct(r) && Slots(l) !! Slots(r)
    requires t.slot != 0 && t.slot !in Slots(l) && t.slot !in Slots(r)
    ensures var u := Rejoin(t, l, r);
            var kept := t.announced || (l.Bin? && r.Bin?);
            && Distinct(u)
            && Slots(u) == Slots(l) + Slots(r) + (if kept then {t.slot} else {})
            && Size(u) == Size(l) + Size(r) + (if kept then 1 else 0)
  {
  }

  ghost predicate NoDuplicates(s: seq<nat>) {
    forall i, j | 0 <= i < j < |s| :: s[i] != s[j]
  }

  function Elements(s: seq<nat>): set<nat> {
    set x | x in s
  }

  lemma ElementsConcat(a: seq<nat>, b: seq<nat>)
    ensures Elements(a + b) == Elements(a) + Elements(b)
  {
  }

  lemma NoDuplicatesConcat(a: seq<nat>, b: seq<nat>)
    requires NoDuplicates(a) && NoDuplicates(b) && Elements(a) !! Elements(b)
    ensures NoDuplicates(a + b)
  {
    var s := a + b;
    forall i, j | 0 <= i < j < |s| ensures s[i] != s[j] {
      if i < |a| <= j {
        assert s[i] in Elements(a) && s[j] in Elements(b);
      }
    }
  }

  /** A sweep splits the slots of the trie into those still in use and those freed. */
  lemma {:induction false} SweepSlots(t: Tree)
    requires Distinct(t)
    ensures Distinct(Sweep(t))
    ensures Slots(Sweep(t)) !! Elements(Freed(t))
    ensures Slots(Sweep(t)) + Elements(Freed(t)) == Slots(t)
    ensures Size(Sweep(t)) + |Freed(t)| == Size(t)
  {
    if t.Bin? {
      SweepSlots(t.left);
      SweepSlots(t.right);
      var l, r := Sweep(t.left), Sweep(t.right);
      FreedElements(t);
      SplitUnion(t.slot, Slots(l), Elements(Freed(t.left)), Slots(r), Elements(Freed(t.right)), !Collapses(t));
      RejoinSlots(t, l, r);
    }
  }

  lemma SplitUnion(slot: nat, l: set<nat>, fl: set<nat>, r: set<nat>, fr: set<nat>, kept: bool)
    requires slot !in l + fl + r + fr && l + fl !! r + fr && l !! fl && r !! fr
    ensures var k, f := l + r + (if kept then {slot} else {}), fl + fr + (if kept then {} else {slot});
            l !! r && k !! f && k + f == {slot} + (l + fl) + (r + fr)
  {
  }

  /** A sweep leaves nothing of a trie exactly when nothing in it is announced. */
  lemma {:induction false} SweepEmpty(t: Tree)
    ensures Sweep(t).Empty? <==> Announced(t) == {}
  {
    if t.Bin? {
      SweepEmpty(t.left);
      SweepEmpty(t.right);
      if t.announced {
        assert t.key in Announced(t);
      }
    }
  }

  /** So it frees the root exactly when that is unannounced and has a side with nothing announced. */
  predicate Redundant(t: Tree) {
    t.Bin? && !t.announced && (Announced(t.left) == {} || Announced(t.right) == {})
  }

  lemma CollapsesIfRedundant(t: Tree)
    ensures Collapses(t) <==> Redundant(t)
  {
    if t.Bin? {
      SweepEmpty(t.left);
      SweepEmpty(t.right);
    }
  }

  lemma FreedElements(t: Tree)
    requires t.Bin?
    ensures Elements(Freed(t))
            == Elements(Freed(t.left)) + Elements(Freed(t.right)) + if Collapses(t) then {t.slot} else {}
  {
    ElementsConcat(Freed(t.left), Freed(t.right));
    ElementsConcat(Freed(t.left) + Freed(t.right), if Collapses(t) then [t.slot] else []);
  }

  lemma {:induction false} FreedOnce(t: Tree)
    requires Distinct(t)
    ensures NoDuplicates(Freed(t))
  {
    if t.Bin? {
      FreedOnce(t.left);
      FreedOnce(t.right);
      SweepSlots(t.left);
      SweepSlots(t.right);
      ElementsConcat(Freed(t.left), Freed(t.right));
      NoDuplicatesConcat(Freed(t.left), Freed(t.right));
      NoDuplicatesConcat(Freed(t.left) + Freed(t.right), if Collapses(t) then [t.slot] else []);
    }
  }
}
