/** The radix trie as a value: what a slab full of nodes represents, and what each
    mutation of `tree.rs` turns it into.

    A `Tree` remembers the slab slot of every node, so that the claims about slots
    (allocation, recycling, dirty reports) can be made here as well; the class in
    RadixTrees.dfy is proved to compute these functions on a real slab. */
module Trie {
  import opened Prefixes

  datatype Tree =
    | Empty
    | Bin(slot: nat, key: Key, announced: bool, ts: nat, left: Tree, right: Tree)

  /** Slot 0 is never allocated and stands for "no node". */
  function RootSlot(t: Tree): nat {
    if t.Empty? then 0 else t.slot
  }

  function Child(t: Tree, bit: bool): Tree
    requires t.Bin?
  {
    if bit then t.right else t.left
  }

  function WithChild(t: Tree, bit: bool, c: Tree): Tree
    requires t.Bin?
  {
    if bit then t.(right := c) else t.(left := c)
  }

  function Slots(t: Tree): set<nat> {
    if t.Empty? then {} else {t.slot} + Slots(t.left) + Slots(t.right)
  }

  function Announced(t: Tree): set<Key> {
    if t.Empty? then {}
    else (if t.announced then {t.key} else {}) + Announced(t.left) + Announced(t.right)
  }

  function Size(t: Tree): nat {
    if t.Empty? then 0 else 1 + Size(t.left) + Size(t.right)
  }

  function AnnouncedCount(t: Tree): nat {
    if t.Empty? then 0
    else (if t.announced then 1 else 0) + AnnouncedCount(t.left) + AnnouncedCount(t.right)
  }

  ghost predicate Below(t: Tree, k: Key) {
    t.Bin? ==> k <= t.key
  }

  /** A child's key continues its parent's with the bit that names the child. */
  ghost predicate WellFormed(t: Tree) {
    t.Bin? ==>
      && |t.key| <= MAX_PREFIX_LEN
      && Below(t.left, t.key + [false]) && WellFormed(t.left)
      && Below(t.right, t.key + [true]) && WellFormed(t.right)
  }

  /** No slot is used by two nodes, and none by the reserved one. */
  ghost predicate Distinct(t: Tree) {
    t.Bin? ==>
      && t.slot != 0
      && t.slot !in Slots(t.left) + Slots(t.right)
      && Slots(t.left) !! Slots(t.right)
      && Distinct(t.left) && Distinct(t.right)
  }

  /** The node that holds exactly `k`, if there is one. */
  function AtKey(t: Tree, k: Key): Tree {
    if t.Empty? || t.key == k then t
    else if t.key <= k then AtKey(Child(t, k[|t.key|]), k)
    else Empty
  }

  // ----- insert -----

  /** What `insert_recursive` reports, plus the slots it marks dirty, in order. */
  datatype Outcome = Outcome(tree: Tree, target: nat, advanced: bool, dirty: seq<nat>)

  function Leaf(slot: nat, k: Key, ts: nat): Tree {
    Bin(slot, k, true, ts, Empty, Empty)
  }

  function Max(a: nat, b: nat): nat {
    if a < b then b else a
  }

  /** `k` is a proper prefix of the root's key: a new node goes above it. */
  function Promote(t: Tree, k: Key, ts: nat, leaf: nat): Tree
    requires t.Bin? && k < t.key
  {
    WithChild(Leaf(leaf, k, Max(ts, t.ts)), t.key[|k|], t)
  }

  /** The keys part ways after `n` bits: an unannounced node joins both branches. */
  function SplitOff(t: Tree, k: Key, ts: nat, leaf: nat, split: nat): Tree
    requires t.Bin? && !(t.key <= k) && !(k <= t.key)
  {
    CommonLenCovers(k, t.key);
    var n := CommonLen(k, t.key);
    var branch := Bin(split, k[..n], false, Max(t.ts, ts), Empty, Empty);
    WithChild(WithChild(branch, k[n], Leaf(leaf, k, ts)), t.key[n], t)
  }

  function Insert(t: Tree, k: Key, ts: nat, leaf: nat, split: nat): Outcome {
    if t.Empty? then
      Outcome(Leaf(leaf, k, ts), leaf, true, [leaf])
    else if t.key == k then
      Outcome(t.(announced := true, ts := ts), t.slot, ts > t.ts, [t.slot])
    else if t.key <= k then
      var c := Child(t, k[|t.key|]);
      var sub := Insert(c, k, ts, leaf, split);
      var advanced := sub.advanced && ts > t.ts;
      var rewired := RootSlot(sub.tree) != RootSlot(c);
      Outcome(WithChild(t.(ts := if advanced then ts else t.ts), k[|t.key|], sub.tree),
              sub.target,
              advanced,
              sub.dirty + (if rewired || advanced then [t.slot] else []))
    else if k <= t.key then
      Outcome(Promote(t, k, ts, leaf), leaf, ts > t.ts, [leaf])
    else
      Outcome(SplitOff(t, k, ts, leaf, split), leaf, ts > t.ts, [split, leaf])
  }

  /** How many slots that takes: first the leaf, then the split node. */
  function Needed(t: Tree, k: Key): nat {
    if t.Empty? then 1
    else if t.key == k then 0
    else if t.key <= k then Needed(Child(t, k[|t.key|]), k)
    else if k <= t.key then 1
    else 2
  }

  // ----- withdraw -----

  function Withdraw(t: Tree, k: Key, ts: nat): (o: Outcome) {
    if t.Empty? then NotFound(t)
    else if t.key == k then
      if !t.announced then NotFound(t)
      else Outcome(t.(announced := false, ts := ts), t.slot, ts > t.ts, [t.slot])
    else if t.key <= k then
      var sub := Withdraw(Child(t, k[|t.key|]), k, ts);
      if sub.target == 0 then NotFound(t)
      else
        var advanced := sub.advanced && ts > t.ts;
        Outcome(WithChild(t.(ts := if advanced then ts else t.ts), k[|t.key|], sub.tree),
                sub.target,
                advanced,
                sub.dirty + (if advanced then [t.slot] else []))
    else NotFound(t)
  }

  function NotFound(t: Tree): Outcome {
    Outcome(t, 0, false, [])
  }

  // ----- sweep -----

  /** A node whose branches have been swept: an unannounced one stays only as a fork. */
  function Rejoin(t: Tree, l: Tree, r: Tree): Tree
    requires t.Bin?
  {
    if t.announced || (l.Bin? && r.Bin?) then t.(left := l, right := r)
    else if l.Bin? then l
    else r
  }

  function Sweep(t: Tree): Tree {
    if t.Empty? then Empty else Rejoin(t, Sweep(t.left), Sweep(t.right))
  }

  /** Whether the sweep frees the root of `t`. */
  predicate Collapses(t: Tree) {
    t.Bin? && !t.announced && (Sweep(t.left).Empty? || Sweep(t.right).Empty?)
  }

  /** The slots a sweep frees, in the order in which they join the free list. */
  function Freed(t: Tree): seq<nat> {
    if t.Empty? then []
    else Freed(t.left) + Freed(t.right) + (if Collapses(t) then [t.slot] else [])
  }

  /** The slots a sweep marks dirty, in order; `parent` is 0 at the root. */
  function SweepDirty(t: Tree, parent: nat): seq<nat> {
    if t.Empty? then []
    else
      SweepDirty(t.left, t.slot) + SweepDirty(t.right, t.slot)
      + (if Collapses(t) && parent != 0 then [parent] else [])
  }
}
