/** The server's route table (`route_table.rs`): two tries on slabs and the published stream.
    Each method here is one or more of the steps of Replication.dfy, carried out in place. */
module RouteTables {
  import opened Words
  import opened Prefixes
  import opened Trie
  import opened TrieStates
  import opened TrieGrowth
  import opened TrieLookup
  import opened TrieTimestamps
  import opened TrieSeeds
  import opened Slab
  import opened RadixTrees
  import opened Messages
  import opened MessageContents
  import opened ClientUpdates
  import Replication

  method ApplyUpdate(tree: RadixTree, u: ThinUpdate)
    requires tree.Valid() && Step(tree.Abs(), UpdateOp(u)).pool.extent <= tree.slab.maxCapacity + 1
    modifies tree, tree.slab
    ensures tree.Valid() && tree.Abs() == Step(old(tree.Abs()), UpdateOp(u))
    ensures Announced(tree.model) == Effect(old(Announced(tree.model)), UpdateOp(u))
    ensures tree.slab.Room() >= old(tree.slab.Room()) - 2
  {
    ghost var s := tree.Abs();
    NeededAtMostTwo(tree.model, KeyOf(u.prefix));
    AllocatedExtent(s.pool, Needed(s.tree, KeyOf(u.prefix)));
    StepFits(s, UpdateOp(u), tree.slab.maxCapacity + 1);
    match u.kind {
      case ANNOUNCE => var _, _ := tree.Insert(u.prefix, u.ts);
      case WITHDRAW => var _, _ := tree.Withdraw(u.prefix, u.ts);
    }
  }

  ghost function KeysOf(ps: set<Prefix>): set<Key> {
    set p | p in ps :: KeyOf(p)
  }

  class RouteTable {
    const v4: RadixTree
    const v6: RadixTree
    const parse: Parser
    var updates: seq<RisMessage>

    ghost predicate Valid()
      reads this, v4, v4.slab, v6, v6.slab
    {
      v4 != v6 && v4.slab != v6.slab && v4.Valid() && v6.Valid()
    }

    constructor (parse: Parser)
      ensures Valid() && this.parse == parse && updates == []
      ensures v4.Abs() == INITIAL && v6.Abs() == INITIAL
      ensures v4.slab.maxCapacity == ALL_ONES && v6.slab.maxCapacity == ALL_ONES
    {
      v4 := new RadixTree(ALL_ONES);
      v6 := new RadixTree(ALL_ONES);
      this.parse := parse;
      updates := [];
    }

    function TreeFor(version: IpVersion): RadixTree {
      match version
      case V4 => v4
      case V6 => v6
    }

    /** The slabs can take what the operations leave in use at any point. */
    ghost predicate Fits(ops: seq<FamilyOp>)
      reads v4, v4.slab, v6, v6.slab
    {
      && Run(v4.Abs(), Restrict(ops, V4)).pool.extent <= v4.slab.maxCapacity + 1
      && Run(v6.Abs(), Restrict(ops, V6)).pool.extent <= v6.slab.maxCapacity + 1
    }

    /** Applies one parsed prefix to the trie of its family; an unparseable one is skipped. */
    method ApplyPrefix(cidr: string, kind: UpdateKind, ts: nat)
      requires Valid() && Fits(PrefixOps(parse, cidr, ts, kind))
      modifies v4, v4.slab, v6, v6.slab
      ensures Valid()
      ensures v4.Abs() == Run(old(v4.Abs()), Restrict(PrefixOps(parse, cidr, ts, kind), V4))
      ensures v6.Abs() == Run(old(v6.Abs()), Restrict(PrefixOps(parse, cidr, ts, kind), V6))
    {
      match parse(cidr)
      case None =>
      case Some(parsed) =>
        var update := ThinUpdate(parsed.prefix, ts, kind);
        assert PrefixOps(parse, cidr, ts, kind) == [FamilyOp(parsed.version, UpdateOp(update))];
        RestrictSingle(FamilyOp(parsed.version, UpdateOp(update)), V4);
        RestrictSingle(FamilyOp(parsed.version, UpdateOp(update)), V6);
        RunOne(TreeFor(parsed.version).Abs(), UpdateOp(update));
        ApplyUpdate(TreeFor(parsed.version), update);
    }

    /** The loop over the announced, or the withdrawn, prefixes of a message. */
    method ApplyPrefixes(cidrs: seq<string>, kind: UpdateKind, ts: nat)
      requires Valid() && Fits(CidrOps(parse, cidrs, ts, kind))
      modifies v4, v4.slab, v6, v6.slab
      ensures Valid()
      ensures v4.Abs() == Run(old(v4.Abs()), Restrict(CidrOps(parse, cidrs, ts, kind), V4))
      ensures v6.Abs() == Run(old(v6.Abs()), Restrict(CidrOps(parse, cidrs, ts, kind), V6))
    {
      ghost var goal4 := Run(v4.Abs(), Restrict(CidrOps(parse, cidrs, ts, kind), V4));
      ghost var goal6 := Run(v6.Abs(), Restrict(CidrOps(parse, cidrs, ts, kind), V6));
      var i := 0;
      assert cidrs[i..] == cidrs;
      while i < |cidrs|
        invariant 0 <= i <= |cidrs| && Valid()
        invariant Run(v4.Abs(), Restrict(CidrOps(parse, cidrs[i..], ts, kind), V4)) == goal4
        invariant Run(v6.Abs(), Restrict(CidrOps(parse, cidrs[i..], ts, kind), V6)) == goal6
      {
        assert cidrs[i..][0] == cidrs[i] && cidrs[i..][1..] == cidrs[i + 1..];
        FirstCidr(v4.Abs(), parse, cidrs[i..], ts, kind, V4);
        FirstCidr(v6.Abs(), parse, cidrs[i..], ts, kind, V6);
        ApplyPrefix(cidrs[i], kind, ts);
        i := i + 1;
      }
    }

    method ApplyMessage(message: RisMessage)
      requires Valid() && Fits(ServerOps(parse, message))
      modifies v4, v4.slab, v6, v6.slab
      ensures Valid()
      ensures v4.Abs() == Run(old(v4.Abs()), Restrict(ServerOps(parse, message), V4))
      ensures v6.Abs() == Run(old(v6.Abs()), Restrict(ServerOps(parse, message), V6))
      ensures forall k: Key ::
                k in Announced(v4.model)
                <==> (k in old(Announced(v4.model)) || AnnouncesKey(parse, message, V4, k))
                     && !WithdrawsKey(parse, message, V4, k)
      ensures forall k: Key ::
                k in Announced(v6.model)
                <==> (k in old(Announced(v6.model)) || AnnouncesKey(parse, message, V6, k))
                     && !WithdrawsKey(parse, message, V6, k)
    {
      RunMessage(v4.Abs(), parse, message, V4);
      RunMessage(v6.Abs(), parse, message, V6);
      match message.body
      case NotAnUpdate =>
      case Update(update) =>
        var announced, withdrawn := AnnouncedCidrs(update), WithdrawnCidrs(update);
        HalvesJoin(v4.Abs(), parse, announced, withdrawn, message.ts, V4);
        HalvesJoin(v6.Abs(), parse, announced, withdrawn, message.ts, V6);
        ApplyPrefixes(announced, ANNOUNCE, message.ts);
        ApplyPrefixes(withdrawn, WITHDRAW, message.ts);
    }

    /** The table as the server of Replication.dfy, between messages. */
    ghost function AsServer(): Replication.Server
      reads this, v4, v4.slab, v6, v6.slab
    {
      Replication.Server(v4.Abs(), v6.Abs(), updates, None, 0)
    }

    /** Applies a message, then publishes it: the state machine's begin, one step per prefix and
        publish, without anything in between. */
    method Ingest(message: RisMessage)
      requires Valid() && Fits(ServerOps(parse, message))
      modifies this, v4, v4.slab, v6, v6.slab
      ensures Valid() && updates == old(updates) + [message]
      ensures AsServer() == Replication.RunSystem(parse, Replication.System(old(AsServer()), map[]),
                                                  IngestEvents(parse, message)).server
    {
      ghost var before := AsServer();
      ApplyMessage(message);
      updates := updates + [message];
      IngestRuns(parse, Replication.System(before, map[]), message);
    }

    /** A snapshot of one trie and the position from which the stream continues it. */
    method Subscribe(version: IpVersion) returns (snapshot: RadixTree, start: nat)
      requires Valid()
      ensures fresh(snapshot) && fresh(snapshot.slab) && snapshot.Valid()
      ensures snapshot.Abs() == TreeFor(version).Abs() && start == |updates|
    {
      snapshot := new RadixTree.CopyOf(TreeFor(version));
      start := |updates|;
    }

    method Sweep()
      requires Valid()
      modifies v4, v4.slab, v6, v6.slab
      ensures Valid()
      ensures v4.Abs() == Step(old(v4.Abs()), SweepAll) && v6.Abs() == Step(old(v6.Abs()), SweepAll)
    {
      var _ := v4.SweepTombstones();
      var _ := v6.SweepTombstones();
    }

    /** Announces every route of a hash map, in whatever order it yields them. */
    method BulkInsertRoutes(version: IpVersion, routes: map<Prefix, nat>) returns (ghost order: seq<Op>)
      requires Valid() && TreeFor(version).slab.Room() >= 2 * |routes|
      modifies TreeFor(version), TreeFor(version).slab
      ensures Valid()
      ensures Enumerates(order, routes)
      ensures TreeFor(version).Abs() == Run(old(TreeFor(version).Abs()), order)
      ensures Announced(TreeFor(version).model)
              == old(Announced(TreeFor(version).model)) + KeysOf(routes.Keys)
      ensures Seeded(TreeFor(version).model, routes)
      ensures Ordered(old(TreeFor(version).model)) && RunFresh(old(TreeFor(version).Abs()), order) ==>
                forall n | Within(TreeFor(version).model, n) ::
                  n.ts == Max(LatestBelow(old(TreeFor(version).model), n.key), LatestOp(order, n.key))
    {
      order := InsertAll(TreeFor(version), routes);
    }
  }

  /** The announcements of a map's routes, each once, with its timestamp. */
  ghost predicate Enumerates(order: seq<Op>, routes: map<Prefix, nat>) {
    && |order| == |routes|
    && (forall p | p in routes :: Announce(KeyOf(p), routes[p]) in order)
    && (forall op | op in order :: exists p | p in routes :: op == Announce(KeyOf(p), routes[p]))
    && Announces(order) && DistinctKeys(order)
  }

  /** Every route has an announced node that is at least as recent as the route. */
  ghost predicate Seeded(t: Tree, routes: map<Prefix, nat>) {
    forall p | p in routes ::
      var n := AtKey(t, KeyOf(p));
      n.Bin? && n.announced && n.ts >= routes[p]
  }

  /** The loop of `bulk_insert_routes`; the map yields its entries in an order of its own. */
  method InsertAll(tree: RadixTree, routes: map<Prefix, nat>) returns (ghost order: seq<Op>)
    requires tree.Valid() && tree.slab.Room() >= 2 * |routes|
    modifies tree, tree.slab
    ensures tree.Valid() && tree.Abs() == Run(old(tree.Abs()), order) && Enumerates(order, routes)
    ensures Announced(tree.model) == old(Announced(tree.model)) + KeysOf(routes.Keys)
    ensures Seeded(tree.model, routes)
    ensures Ordered(old(tree.model)) && RunFresh(old(tree.Abs()), order) ==>
              forall n | Within(tree.model, n) ::
                n.ts == Max(LatestBelow(old(tree.model), n.key), LatestOp(order, n.key))
  {
    ghost var s := tree.Abs();
    var todo := routes.Keys;
    order := [];
    while todo != {}
      invariant todo <= routes.Keys
      invariant tree.Valid() && tree.slab.Room() >= 2 * |todo|
      invariant tree.Abs() == Run(s, order) && Seeds(s, order, routes, routes.Keys - todo)
      decreases todo
    {
      var prefix :| prefix in todo;
      order := InsertOne(tree, prefix, routes[prefix], s, order, routes, routes.Keys - todo);
      OneLessToDo(routes.Keys, todo, prefix);
      todo := todo - {prefix};
    }
    AllSeeded(s, order, routes, routes.Keys - todo);
  }

  lemma OneLessToDo(all: set<Prefix>, todo: set<Prefix>, prefix: Prefix)
    requires prefix in todo && todo <= all
    ensures all - todo + {prefix} == all - (todo - {prefix}) && |todo - {prefix}| == |todo| - 1
  {
  }

  method InsertOne(tree: RadixTree, prefix: Prefix, ts: nat, ghost s: State, ghost order: seq<Op>,
                   ghost routes: map<Prefix, nat>, ghost done: set<Prefix>) returns (ghost more: seq<Op>)
    requires tree.Valid() && tree.slab.Room() >= 2
    requires prefix in routes && prefix !in done && ts == routes[prefix]
    requires tree.Abs() == Run(s, order) && Seeds(s, order, routes, done)
    modifies tree, tree.slab
    ensures tree.Valid() && tree.slab.Room() >= old(tree.slab.Room()) - 2
    ensures tree.Abs() == Run(s, more) && Seeds(s, more, routes, done + {prefix})
  {
    SeedMore(s, order, routes, done, prefix);
    NeededAtMostTwo(tree.model, KeyOf(prefix));
    StepFits(tree.Abs(), Announce(KeyOf(prefix), ts), tree.slab.maxCapacity + 1);
    more := order + [Announce(KeyOf(prefix), ts)];
    ApplyUpdate(tree, ThinUpdate(prefix, ts, ANNOUNCE));
  }

  /** The announcements of the routes in `done`, each once. */
  ghost predicate Lists(order: seq<Op>, routes: map<Prefix, nat>, done: set<Prefix>) {
    && done <= routes.Keys && |order| == |done|
    && (forall p | p in done :: Announce(KeyOf(p), routes[p]) in order)
    && (forall op | op in order :: exists p | p in done :: op == Announce(KeyOf(p), routes[p]))
    && Announces(order) && DistinctKeys(order)
  }

  ghost predicate Seeds(s: State, order: seq<Op>, routes: map<Prefix, nat>, done: set<Prefix>) {
    Lists(order, routes, done) && Effects(Announced(s.tree), order) == Announced(s.tree) + KeysOf(done)
  }

  lemma ListsMore(order: seq<Op>, routes: map<Prefix, nat>, done: set<Prefix>, prefix: Prefix)
    requires Lists(order, routes, done) && prefix in routes && prefix !in done
    ensures Lists(order + [Announce(KeyOf(prefix), routes[prefix])], routes, done + {prefix})
  {
    var op := Announce(KeyOf(prefix), routes[prefix]);
    assert forall o :: o in order + [op] <==> o in order || o == op;
    forall i | 0 <= i < |order| ensures order[i].key != op.key {
      assert order[i] in order;
      var p :| p in done && order[i] == Announce(KeyOf(p), routes[p]);
      SameKey(p, prefix);
    }
  }

  lemma SeedMore(s: State, order: seq<Op>, routes: map<Prefix, nat>, done: set<Prefix>, prefix: Prefix)
    requires Seeds(s, order, routes, done) && prefix in routes && prefix !in done
    ensures var op := Announce(KeyOf(prefix), routes[prefix]);
            Run(s, order + [op]) == Step(Run(s, order), op) && Seeds(s, order + [op], routes, done + {prefix})
  {
    var op := Announce(KeyOf(prefix), routes[prefix]);
    ListsMore(order, routes, done, prefix);
    RunConcat(s, order, [op]);
    RunOne(Run(s, order), op);
    OneMoreKey(Announced(s.tree), order, op, done, prefix);
  }

  lemma OneMoreKey(a: set<Key>, order: seq<Op>, op: Op, done: set<Prefix>, prefix: Prefix)
    requires op.Announce? && op.key == KeyOf(prefix) && Effects(a, order) == a + KeysOf(done)
    ensures Effects(a, order + [op]) == a + KeysOf(done + {prefix})
  {
    EffectsConcat(a, order, [op]);
    RunOne(INITIAL, op);
    KeysOfAdd(done, prefix);
  }

  lemma AllSeeded(s: State, order: seq<Op>, routes: map<Prefix, nat>, done: set<Prefix>)
    requires Inv(s) && Seeds(s, order, routes, done) && done == routes.Keys
    ensures Enumerates(order, routes)
    ensures Announced(Run(s, order).tree) == Announced(s.tree) + KeysOf(routes.Keys)
    ensures Seeded(Run(s, order).tree, routes)
    ensures Ordered(s.tree) && RunFresh(s, order) ==>
              forall n | Within(Run(s, order).tree, n) ::
                n.ts == Max(LatestBelow(s.tree, n.key), LatestOp(order, n.key))
  {
    RunAnnounced(s, order);
    forall p | p in routes
      ensures var n := AtKey(Run(s, order).tree, KeyOf(p));
              n.Bin? && n.announced && n.ts >= routes[p]
    {
      var i :| 0 <= i < |order| && order[i] == Announce(KeyOf(p), routes[p]);
      EachAnnounced(s, order, i);
    }
    if Ordered(s.tree) && RunFresh(s, order) {
      forall n | Within(Run(s, order).tree, n)
        ensures n.ts == Max(LatestBelow(s.tree, n.key), LatestOp(order, n.key))
      {
        FreshTimestamps(s, order, n);
      }
    }
  }

  lemma KeysOfAdd(ps: set<Prefix>, p: Prefix)
    ensures KeysOf(ps + {p}) == KeysOf(ps) + {KeyOf(p)}
  {
  }

  lemma RestrictSingle(o: FamilyOp, f: IpVersion)
    ensures Restrict([o], f) == RestrictOne(o, f)
  {
    assert [o][1..] == [];
  }

  /** The first of several prefixes, on the way to what all of them do. */
  lemma FirstCidr(s: State, parse: Parser, cidrs: seq<string>, ts: nat, kind: UpdateKind, f: IpVersion)
    requires cidrs != []
    ensures var next := Run(s, Restrict(PrefixOps(parse, cidrs[0], ts, kind), f));
            var all := Run(s, Restrict(CidrOps(parse, cidrs, ts, kind), f));
            && all == Run(next, Restrict(CidrOps(parse, cidrs[1..], ts, kind), f))
            && next.pool.extent <= all.pool.extent
  {
    RunHalves(s, PrefixOps(parse, cidrs[0], ts, kind), CidrOps(parse, cidrs[1..], ts, kind), f);
  }

  lemma RunHalves(s: State, a: seq<FamilyOp>, b: seq<FamilyOp>, f: IpVersion)
    ensures Run(s, Restrict(a + b, f)) == Run(Run(s, Restrict(a, f)), Restrict(b, f))
    ensures Run(s, Restrict(a, f)).pool.extent <= Run(s, Restrict(a + b, f)).pool.extent
  {
    RestrictConcat(a, b, f);
    RunConcat(s, Restrict(a, f), Restrict(b, f));
    ExtentGrows(Run(s, Restrict(a, f)), Restrict(b, f));
  }

  lemma RunMessage(s: State, parse: Parser, m: RisMessage, f: IpVersion)
    requires Inv(s)
    ensures forall k: Key ::
              k in Announced(Run(s, Restrict(ServerOps(parse, m), f)).tree)
              <==> (k in Announced(s.tree) || AnnouncesKey(parse, m, f, k)) && !WithdrawsKey(parse, m, f, k)
  {
    RunAnnounced(s, Restrict(ServerOps(parse, m), f));
    MessageEffect(parse, Announced(s.tree), m, f);
  }

  lemma HalvesJoin(s: State, parse: Parser, announced: seq<string>, withdrawn: seq<string>, ts: nat, f: IpVersion)
    ensures var a, w := CidrOps(parse, announced, ts, ANNOUNCE), CidrOps(parse, withdrawn, ts, WITHDRAW);
            && Run(s, Restrict(a + w, f)) == Run(Run(s, Restrict(a, f)), Restrict(w, f))
            && Run(s, Restrict(a, f)).pool.extent <= Run(s, Restrict(a + w, f)).pool.extent
  {
    RunHalves(s, CidrOps(parse, announced, ts, ANNOUNCE), CidrOps(parse, withdrawn, ts, WITHDRAW), f);
  }

  // ----- an uninterrupted ingest, as a run of the state machine -----

  function ApplySteps(n: nat): seq<Replication.Event> {
    if n == 0 then [] else [Replication.ApplyNext] + ApplySteps(n - 1)
  }

  function IngestEvents(parse: Parser, m: RisMessage): seq<Replication.Event> {
    [Replication.BeginIngest(m)] + ApplySteps(|ServerOps(parse, m)|) + [Replication.Publish]
  }

  /** The system once the rest of a message has been applied and the message published. */
  function Ingested(sys: Replication.System, rest: seq<FamilyOp>, m: RisMessage): Replication.System {
    sys.(server := Replication.Server(Run(sys.server.v4, Restrict(rest, V4)), Run(sys.server.v6, Restrict(rest, V6)),
                                      sys.server.log + [m], None, 0))
  }

  lemma IngestRuns(parse: Parser, sys: Replication.System, m: RisMessage)
    requires sys.server.inFlight.None? && sys.server.done == 0
    ensures Replication.RunSystem(parse, sys, IngestEvents(parse, m)) == Ingested(sys, ServerOps(parse, m), m)
  {
    var ops := ServerOps(parse, m);
    var begun := sys.(server := sys.server.(inFlight := Some(m), done := 0));
    assert IngestEvents(parse, m)[1..] == ApplySteps(|ops|) + [Replication.Publish];
    assert ops[0..] == ops;
    StepsRun(parse, begun, m, ops, ApplySteps(|ops|) + [Replication.Publish]);
  }

  lemma {:induction false} StepsRun(parse: Parser, sys: Replication.System, m: RisMessage, rest: seq<FamilyOp>,
                                    events: seq<Replication.Event>)
    requires sys.server.inFlight == Some(m) && sys.server.done <= |ServerOps(parse, m)|
    requires rest == ServerOps(parse, m)[sys.server.done..]
    requires events == ApplySteps(|rest|) + [Replication.Publish]
    ensures Replication.RunSystem(parse, sys, events) == Ingested(sys, rest, m)
    decreases |rest|
  {
    if rest == [] {
      PublishRun(parse, sys, m, events);
    } else {
      var next := sys.(server := Replication.Applying(sys.server, rest[0]));
      StepsTail(|rest| - 1);
      StepsRun(parse, next, m, rest[1..], events[1..]);
      OneStepMore(parse, sys, m, rest, events, next);
    }
  }

  lemma StepsTail(n: nat)
    ensures (ApplySteps(n + 1) + [Replication.Publish])[1..] == ApplySteps(n) + [Replication.Publish]
  {
    assert ApplySteps(n + 1) == [Replication.ApplyNext] + ApplySteps(n);
  }

  lemma OneStepMore(parse: Parser, sys: Replication.System, m: RisMessage, rest: seq<FamilyOp>,
                    events: seq<Replication.Event>, next: Replication.System)
    requires sys.server.inFlight == Some(m) && sys.server.done < |ServerOps(parse, m)|
    requires rest == ServerOps(parse, m)[sys.server.done..]
    requires events != [] && events[0] == Replication.ApplyNext
    requires next == sys.(server := Replication.Applying(sys.server, rest[0]))
    requires Replication.RunSystem(parse, next, events[1..]) == Ingested(next, rest[1..], m)
    ensures Replication.RunSystem(parse, sys, events) == Ingested(sys, rest, m)
  {
    ApplyRun(parse, sys, m, rest, events);
    IngestedStep(sys, rest, m);
  }

  lemma PublishRun(parse: Parser, sys: Replication.System, m: RisMessage, events: seq<Replication.Event>)
    requires sys.server.inFlight == Some(m) && sys.server.done == |ServerOps(parse, m)|
    requires events == [Replication.Publish]
    ensures Replication.RunSystem(parse, sys, events) == Ingested(sys, [], m)
  {
    assert events[1..] == [];
  }

  lemma IngestedStep(sys: Replication.System, rest: seq<FamilyOp>, m: RisMessage)
    requires rest != []
    ensures Ingested(sys.(server := Replication.Applying(sys.server, rest[0])), rest[1..], m) == Ingested(sys, rest, m)
  {
    StepRestricted(sys.server.v4, rest, V4);
    StepRestricted(sys.server.v6, rest, V6);
  }

  lemma ApplyRun(parse: Parser, sys: Replication.System, m: RisMessage, rest: seq<FamilyOp>,
                 events: seq<Replication.Event>)
    requires sys.server.inFlight == Some(m) && sys.server.done < |ServerOps(parse, m)|
    requires rest == ServerOps(parse, m)[sys.server.done..]
    requires events != [] && events[0] == Replication.ApplyNext
    ensures var next := sys.(server := Replication.Applying(sys.server, rest[0]));
            && next.server.inFlight == Some(m) && next.server.done == sys.server.done + 1
            && Replication.RunSystem(parse, sys, events) == Replication.RunSystem(parse, next, events[1..])
  {
  }

  lemma StepRestricted(s: State, rest: seq<FamilyOp>, f: IpVersion)
    requires rest != []
    ensures Run(s, Restrict(rest, f))
            == Run(if rest[0].version == f then Step(s, rest[0].op) else s, Restrict(rest[1..], f))
  {
    RunConcat(s, RestrictOne(rest[0], f), Restrict(rest[1..], f));
    if rest[0].version == f {
      RunOne(s, rest[0].op);
    }
  }
}
