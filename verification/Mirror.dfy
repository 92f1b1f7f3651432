/** The GPU copy of the slab (`render.rs`) and the client loop that keeps it (`lib.rs`). */
module Mirror {
  import opened Words
  import opened Prefixes
  import opened Trie
  import opened TrieSets
  import opened TrieStates
  import opened TrieDirty
  import opened TrieLookup
  import opened TrieGrowth
  import TrieShape
  import opened TrieTimestamps
  import opened TrieTouches
  import opened Messages
  import opened ClientUpdates
  import opened Slab
  import opened RadixTrees
  import opened Shader

  class RenderState {
    const slabBuffer: array<Node>
    var uniformRoot: nat
    var dirtyNodeQueue: set<nat>

    constructor (size: nat)
      ensures slabBuffer.Length == size && fresh(slabBuffer) && dirtyNodeQueue == {}
    {
      slabBuffer := new Node[size](_ => DEFAULT_NODE);
      uniformRoot := 0;
      dirtyNodeQueue := {};
    }

    /** Copies the whole slab, index for index.  The queue is left alone. */
    method UploadSlab(slab: VecSlab)
      requires |slab.entries| <= slabBuffer.Length
      modifies slabBuffer
      ensures slabBuffer[..|slab.entries|] == slab.entries
    {
      var i := 0;
      while i < |slab.entries|
        invariant 0 <= i <= |slab.entries|
        invariant slabBuffer[..i] == slab.entries[..i]
      {
        slabBuffer[i] := slab.entries[i];
        i := i + 1;
      }
    }

    method Update(dirty: seq<nat>)
      modifies this`dirtyNodeQueue
      ensures dirtyNodeQueue == old(dirtyNodeQueue) + Elements(dirty)
    {
      dirtyNodeQueue := dirtyNodeQueue + Elements(dirty);
    }

    /** Writes every queued slot; a queued index outside the slab would panic. */
    method FlushDirties(slab: VecSlab)
      requires |slab.entries| <= slabBuffer.Length
      requires forall i | i in dirtyNodeQueue :: i < |slab.entries|
      modifies this`dirtyNodeQueue, slabBuffer
      ensures dirtyNodeQueue == {}
      ensures forall i | 0 <= i < slabBuffer.Length ::
                slabBuffer[i] == if i in old(dirtyNodeQueue) then slab.entries[i] else old(slabBuffer[i])
    {
      var pending := dirtyNodeQueue;
      while pending != {}
        invariant dirtyNodeQueue == old(dirtyNodeQueue) && pending <= dirtyNodeQueue
        invariant forall i | 0 <= i < slabBuffer.Length ::
                    slabBuffer[i] == if i in dirtyNodeQueue - pending then slab.entries[i] else old(slabBuffer[i])
        decreases pending
      {
        var idx :| idx in pending;
        slabBuffer[idx] := slab.entries[idx];
        pending := pending - {idx};
      }
      dirtyNodeQueue := {};
    }

    /** One frame: flush, then tell the shader where to start. */
    method Render(root: nat, slab: VecSlab)
      requires |slab.entries| <= slabBuffer.Length
      requires forall i | i in dirtyNodeQueue :: i < |slab.entries|
      modifies this, slabBuffer
      ensures dirtyNodeQueue == {} && uniformRoot == root
      ensures forall i | 0 <= i < slabBuffer.Length ::
                slabBuffer[i] == if i in old(dirtyNodeQueue) then slab.entries[i] else old(slabBuffer[i])
    {
      FlushDirties(slab);
      uniformRoot := root;
    }
  }

  /** Slot `i` of the mirror is up to date or about to be. */
  ghost predicate MirrorOk(e: seq<Node>, buffer: seq<Node>, queue: set<nat>, t: Tree) {
    && |e| <= |buffer|
    && (forall i | i in queue :: i < |e|)
    && (forall i | i in Slots(t) :: i < |e| && (i in queue || buffer[i] == e[i]))
  }

  /** Queueing what a mutation reports keeps the mirror right, whatever it recycled. */
  lemma MirrorKept(e: seq<Node>, f: seq<Node>, buffer: seq<Node>, queue: set<nat>, t: Tree, u: Tree, dirty: set<nat>)
    requires MirrorOk(e, buffer, queue, t)
    requires Represents(e, t) && Distinct(t) && Represents(f, u) && Distinct(u)
    requires ChangesIn(t, u, dirty) && |e| <= |f| <= |buffer| && forall i | i in dirty :: i < |f|
    ensures MirrorOk(f, buffer, queue + dirty, u)
  {
    forall i | i in Slots(u) ensures i < |f| && (i in queue + dirty || buffer[i] == f[i]) {
      SlotContents(f, u, i);
      RewrittenIsChanged(e, f, t, u, i);
    }
  }

  /** A flushed mirror represents the same trie as the slab. */
  lemma {:induction false} MirrorRepresents(e: seq<Node>, buffer: seq<Node>, t: Tree)
    requires Represents(e, t) && |e| <= |buffer| && forall i | i in Slots(t) :: i < |e| && buffer[i] == e[i]
    ensures Represents(buffer, t)
  {
    if t.Bin? {
      MirrorRepresents(e, buffer, t.left);
      MirrorRepresents(e, buffer, t.right);
    }
  }

  /** Indices left in the queue by an earlier connection are harmless to a freshly uploaded slab
      exactly when that slab has those slots. */
  lemma LeftoverQueue(e: seq<Node>, buffer: seq<Node>, queue: set<nat>, t: Tree)
    requires Represents(e, t) && Distinct(t) && |e| <= |buffer| && buffer[..|e|] == e
    ensures MirrorOk(e, buffer, queue, t) <==> forall i | i in queue :: i < |e|
  {
    forall i | i in Slots(t) ensures i < |e| && buffer[i] == e[i] {
      SlotContents(e, t, i);
      assert buffer[..|e|][i] == e[i];
    }
  }

  /** It need not: a slot reported before a reconnection can be past the end of the snapshot of a
      server that has been restarted. */
  lemma QueueOutlivesSlab()
    ensures var queue := Elements(StepDirty(INITIAL, Announce([true], 1)));
            !MirrorOk([DEFAULT_NODE], [DEFAULT_NODE, DEFAULT_NODE], queue, Empty)
  {
    assert StepDirty(INITIAL, Announce([true], 1)) == [1];
    assert 1 in Elements([1]);
  }

  // ----- what a session shows -----

  datatype SessionEvent = Message(updates: seq<ThinUpdate>) | AnimationFrame

  /** The operations of a session, sweeps included. */
  function SessionOps(events: seq<SessionEvent>, since: nat): seq<Op>
    decreases |events|
  {
    if events == [] then []
    else
      match events[0]
      case AnimationFrame => SessionOps(events[1..], since)
      case Message(updates) => ClientOps(updates, since) + SessionOps(events[1..], SinceSweeps(updates, since))
  }

  /** For each frame of a session the operations that came before it, after those already `done`. */
  function FrameOps(done: seq<Op>, events: seq<SessionEvent>, since: nat): seq<seq<Op>>
    decreases |events|
  {
    if events == [] then []
    else
      match events[0]
      case AnimationFrame => [done] + FrameOps(done, events[1..], since)
      case Message(updates) =>
        FrameOps(done + ClientOps(updates, since), events[1..], SinceSweeps(updates, since))
  }

  /** The announced set at each frame of a session that starts from `a`. */
  function FrameRoutes(a: set<Key>, events: seq<SessionEvent>): seq<set<Key>>
    decreases |events|
  {
    if events == [] then []
    else
      match events[0]
      case AnimationFrame => [a] + FrameRoutes(a, events[1..])
      case Message(updates) => FrameRoutes(Effects(a, UpdateOps(updates)), events[1..])
  }

  // ----- what those functions say, event by event -----

  function FrameCount(events: seq<SessionEvent>): nat {
    if events == [] then 0 else (if events[0].AnimationFrame? then 1 else 0) + FrameCount(events[1..])
  }

  function UpdatesIn(events: seq<SessionEvent>): seq<ThinUpdate> {
    if events == [] then []
    else if events[0].AnimationFrame? then UpdatesIn(events[1..])
    else events[0].updates + UpdatesIn(events[1..])
  }

  lemma {:induction false} SessionIsItsUpdates(events: seq<SessionEvent>, since: nat)
    ensures SessionOps(events, since) == ClientOps(UpdatesIn(events), since)
    decreases |events|
  {
    if events != [] {
      match events[0]
      case AnimationFrame =>
        SessionIsItsUpdates(events[1..], since);
      case Message(updates) =>
        SessionIsItsUpdates(events[1..], SinceSweeps(updates, since));
        ClientOpsConcat(updates, UpdatesIn(events[1..]), since);
    }
  }

  /** One picture for each animation frame, ... */
  lemma {:induction false} EveryFrameShown(done: seq<Op>, events: seq<SessionEvent>, since: nat)
    ensures |FrameOps(done, events, since)| == FrameCount(events)
    decreases |events|
  {
    if events != [] {
      match events[0]
      case AnimationFrame =>
        EveryFrameShown(done, events[1..], since);
      case Message(updates) =>
        EveryFrameShown(done + ClientOps(updates, since), events[1..], SinceSweeps(updates, since));
    }
  }

  /** ... after all the updates that came before it, ... */
  lemma {:induction false} FrameShowsUpdates(done: seq<Op>, events: seq<SessionEvent>, since: nat, i: nat)
    requires i < |events| && events[i].AnimationFrame?
    ensures var j, frames := FrameCount(events[..i]), FrameOps(done, events, since);
            j < |frames| && frames[j] == done + ClientOps(UpdatesIn(events[..i]), since)
    decreases |events|
  {
    if i > 0 {
      var before := events[1..][..i - 1];
      assert events[..i][0] == events[0] && events[..i][1..] == before;
      match events[0]
      case AnimationFrame =>
        FrameShowsUpdates(done, events[1..], since, i - 1);
      case Message(updates) =>
        var after := SinceSweeps(updates, since);
        FrameShowsUpdates(done + ClientOps(updates, since), events[1..], after, i - 1);
        ClientOpsConcat(updates, UpdatesIn(before), since);
        Associative(done, ClientOps(updates, since), ClientOps(UpdatesIn(before), after));
    }
  }

  /** ... whose announcements and withdrawals decide what is announced. */
  lemma {:induction false} FrameShowsRoutes(a: set<Key>, events: seq<SessionEvent>, i: nat)
    requires i < |events| && events[i].AnimationFrame?
    ensures var j, routes := FrameCount(events[..i]), FrameRoutes(a, events);
            j < |routes| && routes[j] == Effects(a, UpdateOps(UpdatesIn(events[..i])))
    decreases |events|
  {
    if i > 0 {
      var before := events[1..][..i - 1];
      assert events[..i][0] == events[0] && events[..i][1..] == before;
      match events[0]
      case AnimationFrame =>
        FrameShowsRoutes(a, events[1..], i - 1);
      case Message(updates) =>
        FrameShowsRoutes(Effects(a, UpdateOps(updates)), events[1..], i - 1);
        assert UpdateOps(updates + UpdatesIn(before)) == UpdateOps(updates) + UpdateOps(UpdatesIn(before));
        EffectsConcat(a, UpdateOps(updates), UpdateOps(UpdatesIn(before)));
    }
  }

  /** At each frame the announced set is what the updates so far make it, sweeps or not. */
  lemma {:induction false} FramesAnnounce(s: State, done: seq<Op>, events: seq<SessionEvent>, since: nat)
    requires Inv(s)
    ensures var frames, routes := FrameOps(done, events, since), FrameRoutes(Announced(Run(s, done).tree), events);
            && |frames| == |routes|
            && forall j | 0 <= j < |frames| :: Announced(Run(s, frames[j]).tree) == routes[j]
    decreases |events|
  {
    if events != [] {
      match events[0]
      case AnimationFrame =>
        FramesAnnounce(s, done, events[1..], since);
      case Message(updates) =>
        RunInv(s, done);
        ClientEffects(Run(s, done), updates, since);
        RunConcat(s, done, ClientOps(updates, since));
        FramesAnnounce(s, done + ClientOps(updates, since), events[1..], SinceSweeps(updates, since));
    }
  }

  /** A frame comes after an initial part of the session's operations. */
  lemma {:induction false} FrameIsPrefix(done: seq<Op>, events: seq<SessionEvent>, since: nat, j: nat)
    returns (later: seq<Op>)
    requires j < |FrameOps(done, events, since)|
    ensures FrameOps(done, events, since)[j] + later == done + SessionOps(events, since)
    decreases |events|
  {
    match events[0]
    case AnimationFrame =>
      if j == 0 {
        later := SessionOps(events, since);
      } else {
        later := FrameIsPrefix(done, events[1..], since, j - 1);
      }
    case Message(updates) =>
      later := FrameIsPrefix(done + ClientOps(updates, since), events[1..], SinceSweeps(updates, since), j);
  }

  /** While updates arrive in timestamp order, the nodes on the screen tell when something at or
      below them was last updated, in `past` or in this session. */
  lemma FrameTimestamps(s: State, events: seq<SessionEvent>, since: nat, now: nat, a: set<Key>, past: seq<Op>, j: nat)
    requires Inv(s) && Ordered(s.tree) && Latest(s.tree) <= now
    requires Stamped(s.tree, a, past) && Announced(s.tree) == Effects(a, past)
    requires Chronological(SessionOps(events, since), now) && j < |FrameOps([], events, since)|
    ensures var ops := FrameOps([], events, since)[j];
            Stamped(Run(s, ops).tree, a, past + ops)
  {
    var ops := FrameOps([], events, since)[j];
    var later := FrameIsPrefix([], events, since, j);
    assert [] + SessionOps(events, since) == SessionOps(events, since);
    ChronologicalPrefix(ops, later, now);
    RunStamped(s, ops, now, a, past);
  }

  /** The subscribed client: its trie, its mirror of it, and the update counter. */
  class SubscribedState {
    const tree: RadixTree
    const render: RenderState
    var updatesSinceSweep: nat

    /** Up to this length the slab can grow and still be copied. */
    ghost function Limit(): nat {
      Min(tree.slab.maxCapacity + 1, render.slabBuffer.Length)
    }

    ghost predicate Valid()
      reads this, tree, tree.slab, render, render.slabBuffer
    {
      && tree.Valid()
      && updatesSinceSweep <= UPDATES_PER_SWEEP
      && MirrorOk(tree.slab.entries, render.slabBuffer[..], render.dirtyNodeQueue, tree.model)
    }

    /** Installs a snapshot: copies it to the buffer and starts counting.  Indices left in the
        queue by an earlier connection must be slots of the new slab. */
    constructor (tree: RadixTree, render: RenderState)
      requires tree.Valid() && |tree.slab.entries| <= render.slabBuffer.Length
      requires forall i | i in render.dirtyNodeQueue :: i < |tree.slab.entries|
      modifies render.slabBuffer
      ensures Valid() && this.tree == tree && this.render == render && updatesSinceSweep == 0
      ensures render.dirtyNodeQueue == old(render.dirtyNodeQueue)
    {
      this.tree := tree;
      this.render := render;
      updatesSinceSweep := 0;
      new;
      render.UploadSlab(tree.slab);
      LeftoverQueue(tree.slab.entries, render.slabBuffer[..], render.dirtyNodeQueue, tree.model);
    }

    /** Applies one update, sweeps if it is time, and queues everything reported. */
    method HandleUpdate(update: ThinUpdate)
      requires Valid()
      requires Run(tree.Abs(), HandleOps(update, updatesSinceSweep)).pool.extent <= Limit()
      modifies this, tree, tree.slab, render`dirtyNodeQueue
      ensures Valid()
      ensures tree.Abs() == Run(old(tree.Abs()), HandleOps(update, old(updatesSinceSweep)))
      ensures updatesSinceSweep == SinceSweep(old(updatesSinceSweep))
      ensures old(updatesSinceSweep) == 5000 ==>
                && TrieShape.Compact(tree.model) && updatesSinceSweep == 0
                && tree.sweepCount == old(tree.sweepCount) + 1
      ensures old(updatesSinceSweep) < 5000 ==>
                updatesSinceSweep == old(updatesSinceSweep) + 1 && tree.sweepCount == old(tree.sweepCount)
    {
      ghost var s := tree.Abs();
      HandleSweeps(s, update, updatesSinceSweep);
      SweepIsDue(s, update);
      RunOne(s, UpdateOp(update));
      RunTwo(s, UpdateOp(update), SweepAll);
      var dirty := Apply(update);
      updatesSinceSweep := updatesSinceSweep + 1;
      if updatesSinceSweep > UPDATES_PER_SWEEP {
        var more := Reclaim(dirty);
        dirty := dirty + more;
        updatesSinceSweep := 0;
      }
      render.Update(dirty);
    }

    method Apply(update: ThinUpdate) returns (dirty: seq<nat>)
      requires Valid() && Step(tree.Abs(), UpdateOp(update)).pool.extent <= Limit()
      modifies tree, tree.slab
      ensures tree.Valid() && tree.Abs() == Step(old(tree.Abs()), UpdateOp(update))
      ensures MirrorOk(tree.slab.entries, render.slabBuffer[..], render.dirtyNodeQueue + Elements(dirty), tree.model)
    {
      ghost var s := tree.Abs();
      StepFits(s, UpdateOp(update), tree.slab.maxCapacity + 1);
      StepPool(s, UpdateOp(update));
      match update.kind {
        case ANNOUNCE =>
          var target;
          target, dirty := tree.Insert(update.prefix, update.ts);
        case WITHDRAW =>
          var found;
          found, dirty := tree.Withdraw(update.prefix, update.ts);
      }
      assert |tree.slab.entries| == tree.Abs().pool.extent;
      Requeue(old(tree.slab.entries), tree.slab.entries, s, UpdateOp(update),
              render.slabBuffer[..], render.dirtyNodeQueue);
    }

    method Reclaim(ghost dirty: seq<nat>) returns (more: seq<nat>)
      requires tree.Valid()
      requires MirrorOk(tree.slab.entries, render.slabBuffer[..], render.dirtyNodeQueue + Elements(dirty), tree.model)
      modifies tree, tree.slab
      ensures tree.Valid() && tree.Abs() == Step(old(tree.Abs()), SweepAll)
      ensures MirrorOk(tree.slab.entries, render.slabBuffer[..],
                       render.dirtyNodeQueue + Elements(dirty + more), tree.model)
    {
      ghost var s := tree.Abs();
      more := tree.SweepTombstones();
      Requeue(old(tree.slab.entries), tree.slab.entries, s, SweepAll,
              render.slabBuffer[..], render.dirtyNodeQueue + Elements(dirty));
      ElementsConcat(dirty, more);
      assert render.dirtyNodeQueue + Elements(dirty + more)
          == render.dirtyNodeQueue + Elements(dirty) + Elements(more);
    }

    /** One animation frame: afterwards the shader sees the trie as it is now. */
    method Frame()
      requires Valid()
      modifies render, render.slabBuffer
      ensures Valid()
      ensures Represents(render.slabBuffer[..], tree.model) && render.uniformRoot == RootSlot(tree.model)
    {
      render.Render(tree.root, tree.slab);
      ghost var e := tree.slab.entries;
      forall i | i in Slots(tree.model) ensures i < |e| && render.slabBuffer[..][i] == e[i] {
        SlotContents(e, tree.model, i);
      }
      MirrorRepresents(e, render.slabBuffer[..], tree.model);
    }

    method HandleAll(updates: seq<ThinUpdate>)
      requires Valid()
      requires Run(tree.Abs(), ClientOps(updates, updatesSinceSweep)).pool.extent <= Limit()
      modifies this, tree, tree.slab, render`dirtyNodeQueue
      ensures Valid()
      ensures tree.Abs() == Run(old(tree.Abs()), ClientOps(updates, old(updatesSinceSweep)))
      ensures updatesSinceSweep == SinceSweeps(updates, old(updatesSinceSweep))
      ensures updatesSinceSweep == (old(updatesSinceSweep) + |updates|) % 5001
      ensures tree.sweepCount == old(tree.sweepCount) + (old(updatesSinceSweep) + |updates|) / 5001
      ensures Announced(tree.model) == Effects(old(Announced(tree.model)), UpdateOps(updates))
    {
      ghost var goal, since := Run(tree.Abs(), ClientOps(updates, updatesSinceSweep)), updatesSinceSweep;
      ClientEffects(tree.Abs(), updates, since);
      CounterCycles(updates, since);
      SweepCadence(tree.Abs(), updates, since);
      var i := 0;
      assert updates[i..] == updates;
      while i < |updates|
        invariant 0 <= i <= |updates| && Valid()
        invariant Run(tree.Abs(), ClientOps(updates[i..], updatesSinceSweep)) == goal
        invariant SinceSweeps(updates[i..], updatesSinceSweep) == SinceSweeps(updates, since)
      {
        assert updates[i..][0] == updates[i] && updates[i..][1..] == updates[i + 1..];
        FirstUpdate(tree.Abs(), updates[i..], updatesSinceSweep);
        HandleUpdate(updates[i]);
        i := i + 1;
      }
    }

    /** A frame and the shader's work for one pixel. */
    method Draw(x: Word, y: Word) returns (answer: Answer)
      requires Valid()
      modifies render, render.slabBuffer
      ensures Valid() && RightPixel(tree.model, x, y, answer)
    {
      Frame();
      answer := FsMain(render.slabBuffer[..], render.uniformRoot, x, y, tree.model);
    }

    /** The session loop, watching one pixel: in every frame it shows the longest match among the
        routes announced by the updates so far.  All it needs is that the nodes in use at any one
        time fit the slab and the buffer, beside the reserved slot. */
    method Session(events: seq<SessionEvent>, x: Word, y: Word) returns (pixels: seq<Answer>)
      requires Valid() && PeakSize(tree.Abs(), SessionOps(events, updatesSinceSweep)) < Limit()
      modifies this, tree, tree.slab, render, render.slabBuffer
      ensures Valid()
      ensures tree.Abs() == Run(old(tree.Abs()), SessionOps(events, old(updatesSinceSweep)))
      ensures var frames := FrameOps([], events, old(updatesSinceSweep));
              var routes := FrameRoutes(old(Announced(tree.model)), events);
              && |pixels| == |frames| == |routes|
              && forall j | 0 <= j < |pixels| ::
                   var t := Run(old(tree.Abs()), frames[j]).tree;
                   Announced(t) == routes[j] && RightPixel(t, x, y, pixels[j])
    {
      ghost var s, since := tree.Abs(), updatesSinceSweep;
      ghost var all, ops := FrameOps([], events, since), SessionOps(events, since);
      ghost var done: seq<Op> := [];
      HighWater(s, ops);
      FramesAnnounce(s, [], events, since);
      pixels := [];
      var i := 0;
      assert events[i..] == events && done + ops == ops;
      while i < |events|
        invariant 0 <= i <= |events| && Valid() && tree.Abs() == Run(s, done)
        invariant InProgress(s, all, ops, pixels, done, events[i..], updatesSinceSweep, x, y)
      {
        assert events[i..][0] == events[i] && events[i..][1..] == events[i + 1..];
        var shown;
        shown, done := Advance(events[i], x, y, s, all, ops, pixels, done, events[i..]);
        pixels := pixels + shown;
        i := i + 1;
      }
      assert done == ops;
    }

    /** One turn of the loop: a message or a frame. */
    method Advance(event: SessionEvent, x: Word, y: Word, ghost s: State, ghost all: seq<seq<Op>>, ghost ops: seq<Op>,
                   ghost pixels: seq<Answer>, ghost done: seq<Op>, ghost events: seq<SessionEvent>)
      returns (shown: seq<Answer>, ghost now: seq<Op>)
      requires Valid() && tree.Abs() == Run(s, done) && Run(s, ops).pool.extent <= Limit()
      requires events != [] && events[0] == event
      requires InProgress(s, all, ops, pixels, done, events, updatesSinceSweep, x, y)
      modifies this, tree, tree.slab, render, render.slabBuffer
      ensures Valid() && tree.Abs() == Run(s, now)
      ensures InProgress(s, all, ops, pixels + shown, now, events[1..], updatesSinceSweep, x, y)
    {
      match event {
        case Message(updates) =>
          shown, now := [], done + ClientOps(updates, updatesSinceSweep);
          assert pixels + shown == pixels;
          AfterMessage(s, all, ops, pixels, done, events, events[1..], updatesSinceSweep, x, y);
          HandleAll(updates);
        case AnimationFrame =>
          var answer := Draw(x, y);
          shown, now := [answer], done;
          AfterFrame(s, all, ops, pixels, done, events, events[1..], updatesSinceSweep, x, y, answer);
      }
    }
  }

  /** Where a session stands: the operations and frames still to come complete those so far. */
  ghost predicate InProgress(s: State, all: seq<seq<Op>>, ops: seq<Op>, pixels: seq<Answer>, done: seq<Op>,
                             rest: seq<SessionEvent>, since: nat, x: Word, y: Word) {
    && done + SessionOps(rest, since) == ops
    && |pixels| <= |all| && all == all[..|pixels|] + FrameOps(done, rest, since)
    && forall j | 0 <= j < |pixels| :: RightPixel(Run(s, all[j]).tree, x, y, pixels[j])
  }

  lemma AfterFrame(s: State, all: seq<seq<Op>>, ops: seq<Op>, pixels: seq<Answer>, done: seq<Op>,
                   events: seq<SessionEvent>, rest: seq<SessionEvent>, since: nat, x: Word, y: Word, answer: Answer)
    requires InProgress(s, all, ops, pixels, done, events, since, x, y)
    requires events != [] && events[0].AnimationFrame? && rest == events[1..]
    requires RightPixel(Run(s, done).tree, x, y, answer)
    ensures InProgress(s, all, ops, pixels + [answer], done, rest, since, x, y)
  {
    TakeOne(all, |pixels|, done, FrameOps(done, rest, since));
  }

  /** The operations of a message end within what all of the session needs. */
  lemma AfterMessage(s: State, all: seq<seq<Op>>, ops: seq<Op>, pixels: seq<Answer>, done: seq<Op>,
                     events: seq<SessionEvent>, rest: seq<SessionEvent>, since: nat, x: Word, y: Word)
    requires InProgress(s, all, ops, pixels, done, events, since, x, y)
    requires events != [] && events[0].Message? && rest == events[1..]
    ensures var first, after := ClientOps(events[0].updates, since), SinceSweeps(events[0].updates, since);
            && InProgress(s, all, ops, pixels, done + first, rest, after, x, y)
            && Run(Run(s, done), first) == Run(s, done + first)
            && Run(s, done + first).pool.extent <= Run(s, ops).pool.extent
  {
    var first := ClientOps(events[0].updates, since);
    var more := SessionOps(rest, SinceSweeps(events[0].updates, since));
    Associative(done, first, more);
    RunConcat(s, done, first);
    RunConcat(s, done + first, more);
    ExtentGrows(Run(s, done + first), more);
  }

  lemma TakeOne<T>(all: seq<T>, n: nat, next: T, rest: seq<T>)
    requires n <= |all| && all == all[..n] + ([next] + rest)
    ensures n < |all| && all[n] == next && all == all[..n + 1] + rest
  {
    var shown := all[..n];
    assert |all| == n + 1 + |rest|;
    assert all[n] == (shown + ([next] + rest))[n] == next;
    assert all[..n + 1] == shown + [next];
    Associative(shown, [next], rest);
  }

  lemma Requeue(e: seq<Node>, f: seq<Node>, s: State, op: Op, buffer: seq<Node>, queue: set<nat>)
    requires Inv(s) && MirrorOk(e, buffer, queue, s.tree)
    requires Represents(e, s.tree) && Represents(f, Step(s, op).tree) && |e| <= |f| <= |buffer|
    ensures MirrorOk(f, buffer, queue + Elements(StepDirty(s, op)), Step(s, op).tree)
  {
    var u := Step(s, op).tree;
    StepInv(s, op);
    StepChanges(s, op);
    StepDirtyWithin(s, op);
    forall i | i in Elements(StepDirty(s, op)) ensures i < |f| {
      if i in Slots(u) {
        SlotContents(f, u, i);
      }
    }
    MirrorKept(e, f, buffer, queue, s.tree, u, Elements(StepDirty(s, op)));
  }
}
