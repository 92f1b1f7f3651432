/** Snapshot plus stream replication (`route_table.rs`, `connection.rs`, client `lib.rs`) as a
    state machine.  A step is one critical section: the lock is taken per prefix, so a
    snapshot can land in the middle of a message; a message is published when all of it has
    been applied; a subscriber gets its snapshot and its place in the stream together. */
module Replication {
  import opened Prefixes
  import opened Trie
  import opened TrieSets
  import opened TrieStates
  import opened TrieLookup
  import opened TrieShape
  import opened Messages
  import opened ClientUpdates

  /** `done` counts the operations of the message in flight that have been applied. */
  datatype Server = Server(v4: State, v6: State, log: seq<RisMessage>, inFlight: Option<RisMessage>, done: nat)

  /** `cursor` is the client's place in the stream, `inbox` what was sent but not handled.  `missed`
      counts the messages lost to lag; the program itself does not keep it. */
  datatype Client = Client(family: IpVersion, trie: State, cursor: nat, inbox: seq<ThinUpdate>, sinceSweep: nat,
                           missed: nat)

  datatype System = System(server: Server, clients: map<nat, Client>)

  const START := System(Server(INITIAL, INITIAL, [], None, 0), map[])

  datatype Event =
    | BeginIngest(message: RisMessage)
    | ApplyNext
    | Publish
    | ServerSweep(family: IpVersion)
    | Seed(family: IpVersion, routes: seq<Op>)
    | Subscribe(id: nat, family: IpVersion)
    | Forward(id: nat)
    | Lag(id: nat, messages: nat)
    | HandleNext(id: nat)
    | Disconnect(id: nat)

  function TrieOf(s: Server, f: IpVersion): State {
    match f
    case V4 => s.v4
    case V6 => s.v6
  }

  function WithTrie(s: Server, f: IpVersion, t: State): Server {
    match f
    case V4 => s.(v4 := t)
    case V6 => s.(v6 := t)
  }

  function Applying(s: Server, o: FamilyOp): Server {
    WithTrie(s, o.version, Step(TrieOf(s, o.version), o.op)).(done := s.done + 1)
  }

  /** The operations of the message in flight. */
  function FlightOps(parse: Parser, s: Server): seq<FamilyOp> {
    match s.inFlight
    case None => []
    case Some(m) => ServerOps(parse, m)
  }

  function Applied(parse: Parser, s: Server): seq<FamilyOp> {
    var ops := FlightOps(parse, s);
    if s.done <= |ops| then ops[..s.done] else ops
  }

  /** The operations of the message in flight that are still to come. */
  function Pending(parse: Parser, s: Server): seq<FamilyOp> {
    var ops := FlightOps(parse, s);
    if s.done <= |ops| then ops[s.done..] else []
  }

  predicate Touches(ops: seq<Op>, k: Key) {
    exists op | op in ops :: !op.SweepAll? && op.key == k
  }

  predicate Enabled(parse: Parser, sys: System, e: Event) {
    match e
    case BeginIngest(_) => sys.server.inFlight.None?
    case ApplyNext => sys.server.done < |FlightOps(parse, sys.server)|
    case Publish => sys.server.inFlight.Some? && sys.server.done == |FlightOps(parse, sys.server)|
    case ServerSweep(_) => true
    case Seed(_, routes) => Announces(routes)
    case Subscribe(_, _) => true
    case Forward(id) => id in sys.clients && sys.clients[id].cursor < |sys.server.log|
    case Lag(id, n) => id in sys.clients && sys.clients[id].cursor + n <= |sys.server.log|
    case HandleNext(id) => id in sys.clients && sys.clients[id].inbox != []
    case Disconnect(id) => true
  }

  function Next(parse: Parser, sys: System, e: Event): System
    requires Enabled(parse, sys, e)
  {
    var s := sys.server;
    match e
    case BeginIngest(m) => sys.(server := s.(inFlight := Some(m), done := 0))
    case ApplyNext =>
      sys.(server := Applying(s, FlightOps(parse, s)[s.done]))
    case Publish => sys.(server := s.(log := s.log + [s.inFlight.value], inFlight := None, done := 0))
    case ServerSweep(f) => sys.(server := WithTrie(s, f, Step(TrieOf(s, f), SweepAll)))
    case Seed(f, routes) => sys.(server := WithTrie(s, f, Run(TrieOf(s, f), routes)))
    case Subscribe(id, f) =>
      sys.(clients := sys.clients[id := Client(f, TrieOf(s, f).(sweeps := 0), |s.log|, [], 0, 0)])
    case Forward(id) =>
      var c := sys.clients[id];
      var sent := ThinUpdates(parse, s.log[c.cursor], c.family);
      sys.(clients := sys.clients[id := c.(inbox := c.inbox + sent, cursor := c.cursor + 1)])
    case Lag(id, n) =>
      var c := sys.clients[id];
      sys.(clients := sys.clients[id := c.(cursor := c.cursor + n, missed := c.missed + n)])
    case HandleNext(id) =>
      var c := sys.clients[id];
      var u := c.inbox[0];
      sys.(clients := sys.clients[id := c.(trie := Run(c.trie, HandleOps(u, c.sinceSweep)), inbox := c.inbox[1..],
                                           sinceSweep := SinceSweep(c.sinceSweep))])
    case Disconnect(id) => sys.(clients := sys.clients - {id})
  }

  /** An event that is not enabled has no effect. */
  function After(parse: Parser, sys: System, e: Event): System {
    if Enabled(parse, sys, e) then Next(parse, sys, e) else sys
  }

  function RunSystem(parse: Parser, sys: System, events: seq<Event>): System
    decreases |events|
  {
    if events == [] then sys else RunSystem(parse, After(parse, sys, events[0]), events[1..])
  }

  // ----- replaying operations -----

  /** What a sequence of operations does to one key depends only on that key. */
  lemma {:induction false} EffectsLocal(a: set<Key>, b: set<Key>, ops: seq<Op>, k: Key)
    requires k in a <==> k in b
    ensures k in Effects(a, ops) <==> k in Effects(b, ops)
    decreases |ops|
  {
    if ops != [] {
      EffectsLocal(Effect(a, ops[0]), Effect(b, ops[0]), ops[1..], k);
    }
  }

  lemma {:induction false} EffectsUntouched(a: set<Key>, ops: seq<Op>, k: Key)
    requires !Touches(ops, k)
    ensures k in Effects(a, ops) <==> k in a
    decreases |ops|
  {
    if ops != [] {
      assert ops[0] in ops;
      assert forall op | op in ops[1..] :: op in ops;
      EffectsUntouched(Effect(a, ops[0]), ops[1..], k);
    }
  }

  /** After a key has been touched, what was there before no longer matters. */
  lemma {:induction false} EffectsTouched(a: set<Key>, b: set<Key>, ops: seq<Op>, k: Key)
    requires Touches(ops, k)
    ensures k in Effects(a, ops) <==> k in Effects(b, ops)
    decreases |ops|
  {
    if Touches(ops[1..], k) {
      EffectsTouched(Effect(a, ops[0]), Effect(b, ops[0]), ops[1..], k);
    } else {
      var op :| op in ops && !op.SweepAll? && op.key == k;
      assert op == ops[0];
      EffectsLocal(Effect(a, ops[0]), Effect(b, ops[0]), ops[1..], k);
    }
  }

  /** Applying operations a second time changes nothing. */
  lemma ReplayIsIdempotent(a: set<Key>, ops: seq<Op>)
    ensures Effects(Effects(a, ops), ops) == Effects(a, ops)
  {
    forall k: Key ensures k in Effects(Effects(a, ops), ops) <==> k in Effects(a, ops) {
      if Touches(ops, k) {
        EffectsTouched(Effects(a, ops), a, ops, k);
      } else {
        EffectsUntouched(Effects(a, ops), ops, k);
      }
    }
  }

  /** Boundary replay: a client whose snapshot already contains an initial part of a message
      ends up, after the whole message, where the server does. */
  lemma BoundaryReplay(a: set<Key>, done: seq<Op>, rest: seq<Op>)
    ensures Effects(Effects(a, done), done + rest) == Effects(a, done + rest)
  {
    EffectsConcat(Effects(a, done), done, rest);
    EffectsConcat(a, done, rest);
    ReplayIsIdempotent(a, done);
  }

  // ----- the invariant -----

  /** The operations that a stretch of the stream amounts to for a family. */
  function StreamOps(parse: Parser, log: seq<RisMessage>, f: IpVersion): seq<Op> {
    if log == [] then [] else UpdateOps(ThinUpdates(parse, log[0], f)) + StreamOps(parse, log[1..], f)
  }

  /** Where a client will be once it has handled everything sent, ... */
  function Handled(c: Client): set<Key> {
    Effects(Announced(c.trie.tree), UpdateOps(c.inbox))
  }

  /** ... everything published, ... */
  function Streamed(parse: Parser, s: Server, c: Client): set<Key>
    requires c.cursor <= |s.log|
  {
    Effects(Handled(c), StreamOps(parse, s.log[c.cursor..], c.family))
  }

  /** ... and, if that gets published, all of the message in flight. */
  function Destination(parse: Parser, s: Server, c: Client): set<Key>
    requires c.cursor <= |s.log|
  {
    Effects(Streamed(parse, s, c), Restrict(FlightOps(parse, s), c.family))
  }

  /** All of the message in flight would do what the rest of it will. */
  ghost predicate Settled(parse: Parser, s: Server, f: IpVersion) {
    var a := Announced(TrieOf(s, f).tree);
    Effects(a, Restrict(FlightOps(parse, s), f)) == Effects(a, Restrict(Pending(parse, s), f))
  }

  /** The client is headed where the pending operations take the server. */
  ghost predicate OnCourse(parse: Parser, s: Server, c: Client) {
    && c.cursor <= |s.log|
    && Destination(parse, s, c)
       == Effects(Announced(TrieOf(s, c.family).tree), Restrict(Pending(parse, s), c.family))
  }

  ghost predicate ServerOk(parse: Parser, s: Server) {
    && Inv(s.v4) && Inv(s.v6)
    && s.done <= |FlightOps(parse, s)|
    && Settled(parse, s, V4) && Settled(parse, s, V6)
  }

  ghost predicate ClientOk(parse: Parser, s: Server, c: Client) {
    Inv(c.trie) && c.cursor <= |s.log| && (c.missed == 0 ==> OnCourse(parse, s, c))
  }

  ghost predicate SystemOk(parse: Parser, sys: System) {
    ServerOk(parse, sys.server) && forall id | id in sys.clients :: ClientOk(parse, sys.server, sys.clients[id])
  }

  lemma StreamFirst(parse: Parser, m: RisMessage, log: seq<RisMessage>, f: IpVersion)
    ensures StreamOps(parse, [m] + log, f) == UpdateOps(ThinUpdates(parse, m, f)) + StreamOps(parse, log, f)
  {
    assert ([m] + log)[1..] == log;
  }

  lemma {:induction false} StreamConcat(parse: Parser, log: seq<RisMessage>, more: seq<RisMessage>, f: IpVersion)
    ensures StreamOps(parse, log + more, f) == StreamOps(parse, log, f) + StreamOps(parse, more, f)
  {
    if log == [] {
      assert log + more == more;
    } else {
      var m, rest := log[0], log[1..];
      StreamConcat(parse, rest, more, f);
      assert log == [m] + rest;
      Associative([m], rest, more);
      StreamFirst(parse, m, rest, f);
      StreamFirst(parse, m, rest + more, f);
      ConcatMore(UpdateOps(ThinUpdates(parse, m, f)), StreamOps(parse, rest, f), StreamOps(parse, more, f),
                 StreamOps(parse, log, f), StreamOps(parse, rest + more, f));
    }
  }

  lemma ConcatMore<T>(first: seq<T>, a: seq<T>, b: seq<T>, all: seq<T>, rest: seq<T>)
    requires rest == a + b && all == first + a
    ensures first + rest == all + b
  {
    Associative(first, a, b);
  }

  lemma StreamSplit(parse: Parser, log: seq<RisMessage>, i: nat, m: nat, f: IpVersion)
    requires i <= m <= |log|
    ensures StreamOps(parse, log[i..], f) == StreamOps(parse, log[i..m], f) + StreamOps(parse, log[m..], f)
  {
    assert log[i..] == log[i..m] + log[m..];
    StreamConcat(parse, log[i..m], log[m..], f);
  }

  lemma StreamOne(parse: Parser, m: RisMessage, f: IpVersion)
    ensures StreamOps(parse, [m], f) == Restrict(ServerOps(parse, m), f)
  {
    ThinUpdatesAreServerOps(parse, m, f);
    assert [m][1..] == [];
  }

  // ----- each step keeps it -----

  lemma BeginSettles(parse: Parser, s: Server, m: RisMessage)
    requires ServerOk(parse, s) && s.inFlight.None?
    ensures ServerOk(parse, s.(inFlight := Some(m), done := 0))
  {
    assert Pending(parse, s.(inFlight := Some(m), done := 0)) == ServerOps(parse, m);
  }

  lemma BeginKeeps(parse: Parser, s: Server, m: RisMessage, c: Client)
    requires OnCourse(parse, s, c) && s.inFlight.None?
    ensures OnCourse(parse, s.(inFlight := Some(m), done := 0), c)
  {
    assert FlightOps(parse, s) == [] && Pending(parse, s) == [];
    assert Pending(parse, s.(inFlight := Some(m), done := 0)) == ServerOps(parse, m);
  }

  /** What one server operation does to a family. */
  function FamilyEffect(a: set<Key>, o: FamilyOp, f: IpVersion): set<Key> {
    if o.version == f then Effect(a, o.op) else a
  }

  lemma ApplyEffect(s: Server, o: FamilyOp, f: IpVersion)
    requires Inv(s.v4) && Inv(s.v6)
    ensures var r := Applying(s, o);
            && Inv(r.v4) && Inv(r.v6)
            && r.log == s.log && r.inFlight == s.inFlight && r.done == s.done + 1
            && Announced(TrieOf(r, f).tree) == FamilyEffect(Announced(TrieOf(s, f).tree), o, f)
  {
    StepInv(TrieOf(s, o.version), o.op);
    StepAnnounced(TrieOf(s, o.version), o.op);
  }

  lemma PendingStep(parse: Parser, s: Server, r: Server, f: IpVersion)
    requires s.done < |FlightOps(parse, s)| && r.inFlight == s.inFlight && r.done == s.done + 1
    ensures Restrict(Pending(parse, s), f)
            == RestrictOne(FlightOps(parse, s)[s.done], f) + Restrict(Pending(parse, r), f)
  {
    assert Pending(parse, s)[1..] == Pending(parse, r);
  }

  lemma FlightSplit(parse: Parser, s: Server, f: IpVersion)
    ensures Restrict(FlightOps(parse, s), f) == Restrict(Applied(parse, s), f) + Restrict(Pending(parse, s), f)
  {
    FlightParts(parse, s);
    RestrictConcat(Applied(parse, s), Pending(parse, s), f);
  }

  lemma FlightParts(parse: Parser, s: Server)
    ensures FlightOps(parse, s) == Applied(parse, s) + Pending(parse, s)
  {
    var ops := FlightOps(parse, s);
    if s.done <= |ops| {
      assert ops == ops[..s.done] + ops[s.done..];
    } else {
      assert ops == ops + [];
    }
  }

  /** An operation that is about to be repeated can be applied beforehand. */
  lemma RepeatedOp(a: set<Key>, ops: seq<Op>, op: Op)
    requires op in ops
    ensures Effects(Effect(a, op), ops) == Effects(a, ops)
  {
    forall k: Key ensures k in Effects(Effect(a, op), ops) <==> k in Effects(a, ops) {
      if Touches(ops, k) {
        EffectsTouched(Effect(a, op), a, ops, k);
      } else {
        EffectsLocal(Effect(a, op), a, ops, k);
      }
    }
  }

  /** Applying the next operation takes the server further on the same way. */
  lemma ApplyStep(parse: Parser, s: Server, f: IpVersion)
    requires Inv(s.v4) && Inv(s.v6) && s.done < |FlightOps(parse, s)|
    ensures var o := FlightOps(parse, s)[s.done];
            var r := Applying(s, o);
            && FlightOps(parse, r) == FlightOps(parse, s)
            && Effects(Announced(TrieOf(r, f).tree), Restrict(Pending(parse, r), f))
               == Effects(Announced(TrieOf(s, f).tree), Restrict(Pending(parse, s), f))
            && Effects(Announced(TrieOf(r, f).tree), Restrict(FlightOps(parse, r), f))
               == Effects(Announced(TrieOf(s, f).tree), Restrict(FlightOps(parse, s), f))
  {
    var o := FlightOps(parse, s)[s.done];
    var a := Announced(TrieOf(s, f).tree);
    ApplyEffect(s, o, f);
    PendingStep(parse, s, Applying(s, o), f);
    EffectsConcat(a, RestrictOne(o, f), Restrict(Pending(parse, Applying(s, o)), f));
    if o.version == f {
      RunOne(TrieOf(s, f), o.op);
      FlightSplit(parse, s, f);
      assert RestrictOne(o, f)[0] == o.op;
      assert o.op in Restrict(Pending(parse, s), f);
      RepeatedOp(a, Restrict(FlightOps(parse, s), f), o.op);
    }
  }

  lemma ApplySettles(parse: Parser, s: Server)
    requires ServerOk(parse, s) && s.done < |FlightOps(parse, s)|
    ensures ServerOk(parse, Applying(s, FlightOps(parse, s)[s.done]))
  {
    ApplyEffect(s, FlightOps(parse, s)[s.done], V4);
    ApplyStep(parse, s, V4);
    ApplyStep(parse, s, V6);
  }

  lemma ApplyKeeps(parse: Parser, s: Server, c: Client)
    requires ServerOk(parse, s) && s.done < |FlightOps(parse, s)| && OnCourse(parse, s, c)
    ensures OnCourse(parse, Applying(s, FlightOps(parse, s)[s.done]), c)
  {
    ApplyEffect(s, FlightOps(parse, s)[s.done], c.family);
    ApplyStep(parse, s, c.family);
  }

  function Published(s: Server): Server
    requires s.inFlight.Some?
  {
    s.(log := s.log + [s.inFlight.value], inFlight := None, done := 0)
  }

  lemma PublishAppends(parse: Parser, s: Server, base: set<Key>, from: nat, f: IpVersion)
    requires s.inFlight.Some? && from <= |s.log|
    ensures Effects(base, StreamOps(parse, Published(s).log[from..], f))
            == Effects(Effects(base, StreamOps(parse, s.log[from..], f)), Restrict(FlightOps(parse, s), f))
  {
    var m := s.inFlight.value;
    assert Published(s).log[from..] == s.log[from..] + [m];
    StreamConcat(parse, s.log[from..], [m], f);
    StreamOne(parse, m, f);
    EffectsConcat(base, StreamOps(parse, s.log[from..], f), Restrict(ServerOps(parse, m), f));
  }

  /** Publishing sends every client the message it was headed for. */
  lemma PublishStreams(parse: Parser, s: Server, c: Client)
    requires s.inFlight.Some? && c.cursor <= |s.log|
    ensures Streamed(parse, Published(s), c) == Destination(parse, s, c)
  {
    PublishAppends(parse, s, Handled(c), c.cursor, c.family);
  }

  lemma PublishKeeps(parse: Parser, s: Server, c: Client)
    requires s.inFlight.Some? && s.done == |FlightOps(parse, s)| && OnCourse(parse, s, c)
    ensures OnCourse(parse, Published(s), c)
  {
    assert Pending(parse, s) == [] && Pending(parse, Published(s)) == [];
    PublishStreams(parse, s, c);
  }

  lemma SweepSettles(parse: Parser, s: Server, f: IpVersion)
    requires ServerOk(parse, s)
    ensures ServerOk(parse, WithTrie(s, f, Step(TrieOf(s, f), SweepAll)))
  {
    StepInv(TrieOf(s, f), SweepAll);
    StepAnnounced(TrieOf(s, f), SweepAll);
  }

  lemma SweepKeeps(parse: Parser, s: Server, f: IpVersion, c: Client)
    requires ServerOk(parse, s) && OnCourse(parse, s, c)
    ensures OnCourse(parse, WithTrie(s, f, Step(TrieOf(s, f), SweepAll)), c)
  {
    StepAnnounced(TrieOf(s, f), SweepAll);
  }

  // ----- seeding -----

  /** Bulk seeding is not published.  It is harmless to later subscribers unless it brings back a
      prefix that the message in flight has withdrawn and will not touch again, ... */
  predicate SeedSettled(parse: Parser, s: Server, f: IpVersion, routes: seq<Op>)
    requires Announces(routes)
  {
    var done, rest := Restrict(Applied(parse, s), f), Restrict(Pending(parse, s), f);
    forall op | op in routes ::
      op.key in Announced(TrieOf(s, f).tree) || !Touches(done, op.key) || Touches(rest, op.key)
  }

  /** ... and to present ones if all that it adds is about to be announced or withdrawn. */
  predicate SeedOvertaken(parse: Parser, s: Server, f: IpVersion, routes: seq<Op>)
    requires Announces(routes)
  {
    var rest := Restrict(Pending(parse, s), f);
    forall op | op in routes :: op.key in Announced(TrieOf(s, f).tree) || Touches(rest, op.key)
  }

  ghost predicate SeedHarmless(parse: Parser, sys: System, f: IpVersion, routes: seq<Op>)
    requires Announces(routes)
  {
    && SeedSettled(parse, sys.server, f, routes)
    && forall id | id in sys.clients && sys.clients[id].family == f && sys.clients[id].missed == 0 ::
         SeedOvertaken(parse, sys.server, f, routes)
  }

  /** If the event is a seed, it comes at a harmless moment. */
  ghost predicate Harmless(parse: Parser, sys: System, e: Event) {
    e.Seed? && Announces(e.routes) ==> SeedHarmless(parse, sys, e.family, e.routes)
  }

  /** Every seed of a run does. */
  ghost predicate Orderly(parse: Parser, sys: System, events: seq<Event>)
    decreases |events|
  {
    events != [] ==>
      && Harmless(parse, sys, events[0])
      && Orderly(parse, After(parse, sys, events[0]), events[1..])
  }

  lemma {:induction false} SeedAdds(a: set<Key>, routes: seq<Op>)
    requires Announces(routes)
    ensures forall k: Key :: k in Effects(a, routes) <==> k in a || exists op | op in routes :: op.key == k
    decreases |routes|
  {
    if routes != [] {
      var rest := routes[1..];
      assert forall op :: op in routes <==> op == routes[0] || op in rest;
      SeedAdds(Effect(a, routes[0]), rest);
    }
  }

  /** A seed leaves the replay of a half-applied message harmless if and only if it brings back
      nothing that the message has touched already and does not touch again. */
  lemma SeedSettles(a: set<Key>, done: seq<Op>, rest: seq<Op>, routes: seq<Op>)
    requires Effects(a, done + rest) == Effects(a, rest) && Announces(routes)
    ensures var b := Effects(a, routes);
            Effects(b, done + rest) == Effects(b, rest)
            <==> forall op | op in routes :: op.key in a || !Touches(done, op.key) || Touches(rest, op.key)
  {
    var b := Effects(a, routes);
    SeedAdds(a, routes);
    forall k: Key
      ensures (k in Effects(b, done + rest) <==> k in Effects(b, rest))
              <==> k in a || k !in b || !Touches(done, k) || Touches(rest, k)
    {
      SeedSettlesKey(a, b, done, rest, k);
    }
    if Effects(b, done + rest) == Effects(b, rest) {
      assert forall op | op in routes :: op.key in b;
    } else {
      var k :| (k in Effects(b, done + rest)) != (k in Effects(b, rest));
      var op :| op in routes && op.key == k;
    }
  }

  lemma SeedSettlesKey(a: set<Key>, b: set<Key>, done: seq<Op>, rest: seq<Op>, k: Key)
    requires Effects(a, done + rest) == Effects(a, rest) && a <= b
    ensures (k in Effects(b, done + rest) <==> k in Effects(b, rest))
            <==> k in a || k !in b || !Touches(done, k) || Touches(rest, k)
  {
    EffectsConcat(b, done, rest);
    if Touches(rest, k) {
      EffectsTouched(Effects(b, done), b, rest, k);
    } else {
      EffectsUntouched(Effects(b, done), rest, k);
      EffectsUntouched(b, rest, k);
      EffectsConcat(a, done, rest);
      EffectsUntouched(Effects(a, done), rest, k);
      EffectsUntouched(a, rest, k);
      if Touches(done, k) {
        EffectsTouched(a, b, done, k);
      } else {
        EffectsUntouched(b, done, k);
      }
    }
  }

  /** A client that is on its course stays there if and only if all that a seed adds is about to
      be announced or withdrawn anyway. */
  lemma SeedOvertakes(a: set<Key>, rest: seq<Op>, routes: seq<Op>)
    requires Announces(routes)
    ensures Effects(Effects(a, routes), rest) == Effects(a, rest)
            <==> forall op | op in routes :: op.key in a || Touches(rest, op.key)
  {
    var b := Effects(a, routes);
    SeedAdds(a, routes);
    forall k: Key
      ensures (k in Effects(b, rest) <==> k in Effects(a, rest)) <==> k in a || k !in b || Touches(rest, k)
    {
      if Touches(rest, k) {
        EffectsTouched(a, b, rest, k);
      } else {
        EffectsUntouched(a, rest, k);
        EffectsUntouched(b, rest, k);
      }
    }
    if Effects(b, rest) == Effects(a, rest) {
      assert forall op | op in routes :: op.key in b;
    } else {
      var k :| (k in Effects(b, rest)) != (k in Effects(a, rest));
      var op :| op in routes && op.key == k;
    }
  }

  lemma SeedKeepsServer(parse: Parser, s: Server, f: IpVersion, routes: seq<Op>)
    requires ServerOk(parse, s) && Announces(routes)
    ensures ServerOk(parse, WithTrie(s, f, Run(TrieOf(s, f), routes))) <==> SeedSettled(parse, s, f, routes)
  {
    var r := WithTrie(s, f, Run(TrieOf(s, f), routes));
    RunInv(TrieOf(s, f), routes);
    RunAnnounced(TrieOf(s, f), routes);
    FlightSplit(parse, s, f);
    SeedSettles(Announced(TrieOf(s, f).tree), Restrict(Applied(parse, s), f), Restrict(Pending(parse, s), f), routes);
    assert FlightOps(parse, r) == FlightOps(parse, s) && Pending(parse, r) == Pending(parse, s);
  }

  lemma SeedKeepsClient(parse: Parser, s: Server, f: IpVersion, routes: seq<Op>, c: Client)
    requires ServerOk(parse, s) && Announces(routes) && OnCourse(parse, s, c)
    ensures OnCourse(parse, WithTrie(s, f, Run(TrieOf(s, f), routes)), c)
            <==> c.family != f || SeedOvertaken(parse, s, f, routes)
  {
    var r := WithTrie(s, f, Run(TrieOf(s, f), routes));
    assert FlightOps(parse, r) == FlightOps(parse, s) && Pending(parse, r) == Pending(parse, s);
    assert Destination(parse, r, c) == Destination(parse, s, c);
    if c.family == f {
      RunAnnounced(TrieOf(s, f), routes);
      SeedOvertakes(Announced(TrieOf(s, f).tree), Restrict(Pending(parse, s), f), routes);
    }
  }

  // ----- clients -----

  function Subscriber(s: Server, f: IpVersion): Client {
    Client(f, TrieOf(s, f).(sweeps := 0), |s.log|, [], 0, 0)
  }

  /** The snapshot may contain an initial part of the message in flight; the whole message
      will reach the client nevertheless. */
  lemma SubscribeOnCourse(parse: Parser, s: Server, f: IpVersion)
    requires ServerOk(parse, s)
    ensures OnCourse(parse, s, Subscriber(s, f))
  {
    var c := Subscriber(s, f);
    assert Settled(parse, s, f);
    assert UpdateOps(c.inbox) == [] && s.log[c.cursor..] == [];
  }

  lemma UpdateOpsConcat(a: seq<ThinUpdate>, b: seq<ThinUpdate>)
    ensures UpdateOps(a + b) == UpdateOps(a) + UpdateOps(b)
  {
  }

  function Forwarded(parse: Parser, s: Server, c: Client): Client
    requires c.cursor < |s.log|
  {
    c.(inbox := c.inbox + ThinUpdates(parse, s.log[c.cursor], c.family), cursor := c.cursor + 1)
  }

  lemma ForwardStreams(parse: Parser, s: Server, c: Client)
    requires c.cursor < |s.log|
    ensures Streamed(parse, s, Forwarded(parse, s, c)) == Streamed(parse, s, c)
  {
    var sent := ThinUpdates(parse, s.log[c.cursor], c.family);
    assert s.log[c.cursor..][1..] == s.log[c.cursor + 1..];
    UpdateOpsConcat(c.inbox, sent);
    EffectsConcat(Announced(c.trie.tree), UpdateOps(c.inbox), UpdateOps(sent));
    EffectsConcat(Handled(c), UpdateOps(sent), StreamOps(parse, s.log[c.cursor + 1..], c.family));
  }

  function HandledNext(c: Client): Client
    requires c.inbox != []
  {
    c.(trie := Run(c.trie, HandleOps(c.inbox[0], c.sinceSweep)), inbox := c.inbox[1..],
       sinceSweep := SinceSweep(c.sinceSweep))
  }

  lemma HandleStreams(parse: Parser, s: Server, c: Client)
    requires c.inbox != [] && Inv(c.trie) && c.cursor <= |s.log|
    ensures Inv(HandledNext(c).trie) && Streamed(parse, s, HandledNext(c)) == Streamed(parse, s, c)
  {
    HandleEffect(c.trie, c.inbox[0], c.sinceSweep);
    assert UpdateOps(c.inbox)[1..] == UpdateOps(c.inbox[1..]);
  }

  // ----- runs -----

  predicate ServerEvent(e: Event) {
    e.BeginIngest? || e.ApplyNext? || e.Publish? || e.ServerSweep? || e.Seed?
  }

  lemma NextKeepsServer(parse: Parser, sys: System, e: Event)
    requires SystemOk(parse, sys) && Enabled(parse, sys, e) && Harmless(parse, sys, e)
    ensures ServerOk(parse, Next(parse, sys, e).server)
  {
    var s := sys.server;
    match e
    case BeginIngest(m) => BeginSettles(parse, s, m);
    case ApplyNext => ApplySettles(parse, s);
    case Publish =>
    case ServerSweep(f) => SweepSettles(parse, s, f);
    case Seed(f, routes) => SeedKeepsServer(parse, s, f, routes);
    case Subscribe(_, _) =>
    case Forward(_) =>
    case Lag(_, _) =>
    case HandleNext(_) =>
    case Disconnect(_) =>
  }

  /** What happens on the server keeps any client on its course, present in the system or not. */
  lemma ServerEventKeepsCourse(parse: Parser, sys: System, e: Event, c: Client)
    requires ServerOk(parse, sys.server) && Enabled(parse, sys, e) && ServerEvent(e) && OnCourse(parse, sys.server, c)
    requires e.Seed? && e.family == c.family ==> SeedOvertaken(parse, sys.server, e.family, e.routes)
    ensures OnCourse(parse, Next(parse, sys, e).server, c)
  {
    var s := sys.server;
    match e
    case BeginIngest(m) => BeginKeeps(parse, s, m, c);
    case ApplyNext => ApplyKeeps(parse, s, c);
    case Publish => PublishKeeps(parse, s, c);
    case ServerSweep(f) => SweepKeeps(parse, s, f, c);
    case Seed(f, routes) => SeedKeepsClient(parse, s, f, routes, c);
  }

  lemma LogGrows(parse: Parser, sys: System, e: Event)
    requires Enabled(parse, sys, e)
    ensures sys.server.log <= Next(parse, sys, e).server.log
    ensures !ServerEvent(e) ==> Next(parse, sys, e).server == sys.server
    ensures ServerEvent(e) ==> Next(parse, sys, e).clients == sys.clients
  {
  }

  lemma ServerEventKeepsClient(parse: Parser, sys: System, e: Event, id: nat)
    requires SystemOk(parse, sys) && Enabled(parse, sys, e) && Harmless(parse, sys, e)
    requires ServerEvent(e) && id in sys.clients
    ensures ClientOk(parse, Next(parse, sys, e).server, sys.clients[id])
  {
    LogGrows(parse, sys, e);
    assert ClientOk(parse, sys.server, sys.clients[id]);
    if sys.clients[id].missed == 0 {
      ServerEventKeepsCourse(parse, sys, e, sys.clients[id]);
    }
  }

  lemma ClientEventKeepsClient(parse: Parser, sys: System, e: Event, id: nat)
    requires SystemOk(parse, sys) && Enabled(parse, sys, e) && !ServerEvent(e) && id in Next(parse, sys, e).clients
    ensures ClientOk(parse, sys.server, Next(parse, sys, e).clients[id])
  {
    match e
    case Subscribe(i, f) =>
      if i == id {
        SubscribeOnCourse(parse, sys.server, f);
      } else {
        assert ClientOk(parse, sys.server, sys.clients[id]);
      }
    case Forward(i) => ForwardKeepsClient(parse, sys, i, id);
    case Lag(i, n) => LagKeepsClient(parse, sys, i, n, id);
    case HandleNext(i) => HandleKeepsClient(parse, sys, i, id);
    case Disconnect(_) => assert ClientOk(parse, sys.server, sys.clients[id]);
  }

  lemma ForwardKeepsClient(parse: Parser, sys: System, i: nat, id: nat)
    requires SystemOk(parse, sys) && Enabled(parse, sys, Forward(i)) && id in sys.clients
    ensures ClientOk(parse, sys.server, Next(parse, sys, Forward(i)).clients[id])
  {
    assert ClientOk(parse, sys.server, sys.clients[id]);
    if i == id {
      ForwardStreams(parse, sys.server, sys.clients[id]);
      assert Next(parse, sys, Forward(i)).clients[id] == Forwarded(parse, sys.server, sys.clients[id]);
    }
  }

  lemma LagKeepsClient(parse: Parser, sys: System, i: nat, n: nat, id: nat)
    requires SystemOk(parse, sys) && Enabled(parse, sys, Lag(i, n)) && id in sys.clients
    ensures ClientOk(parse, sys.server, Next(parse, sys, Lag(i, n)).clients[id])
  {
    assert ClientOk(parse, sys.server, sys.clients[id]);
    if i == id && n == 0 {
      assert Next(parse, sys, Lag(i, n)).clients[id] == sys.clients[id];
    }
  }

  lemma HandleKeepsClient(parse: Parser, sys: System, i: nat, id: nat)
    requires SystemOk(parse, sys) && Enabled(parse, sys, HandleNext(i)) && id in sys.clients
    ensures ClientOk(parse, sys.server, Next(parse, sys, HandleNext(i)).clients[id])
  {
    assert ClientOk(parse, sys.server, sys.clients[id]);
    if i == id {
      HandleStreams(parse, sys.server, sys.clients[id]);
      assert Next(parse, sys, HandleNext(i)).clients[id] == HandledNext(sys.clients[id]);
    }
  }

  lemma NextKeeps(parse: Parser, sys: System, e: Event)
    requires SystemOk(parse, sys) && Harmless(parse, sys, e)
    ensures SystemOk(parse, After(parse, sys, e))
  {
    if Enabled(parse, sys, e) {
      var next := Next(parse, sys, e);
      NextKeepsServer(parse, sys, e);
      LogGrows(parse, sys, e);
      forall id | id in next.clients ensures ClientOk(parse, next.server, next.clients[id]) {
        if ServerEvent(e) {
          ServerEventKeepsClient(parse, sys, e, id);
        } else {
          ClientEventKeepsClient(parse, sys, e, id);
        }
      }
    }
  }

  lemma {:induction false} RunKeeps(parse: Parser, sys: System, events: seq<Event>)
    requires SystemOk(parse, sys) && Orderly(parse, sys, events)
    ensures SystemOk(parse, RunSystem(parse, sys, events))
    decreases |events|
  {
    if events != [] {
      NextKeeps(parse, sys, events[0]);
      RunKeeps(parse, After(parse, sys, events[0]), events[1..]);
    }
  }

  /** Nothing is on its way to the client. */
  predicate Drained(sys: System, id: nat) {
    && id in sys.clients
    && sys.server.inFlight.None?
    && sys.clients[id].cursor == |sys.server.log|
    && sys.clients[id].inbox == []
  }

  ghost predicate Agree(sys: System, id: nat)
    requires id in sys.clients
  {
    var c := sys.clients[id];
    Announced(c.trie.tree) == Announced(TrieOf(sys.server, c.family).tree)
  }

  /** Convergence: whatever the interleaving, a client that has missed nothing and whose stream is
      drained has exactly the announced set of the server for its family. */
  lemma Convergence(parse: Parser, events: seq<Event>, id: nat)
    requires Orderly(parse, START, events) && Drained(RunSystem(parse, START, events), id)
    requires RunSystem(parse, START, events).clients[id].missed == 0
    ensures Agree(RunSystem(parse, START, events), id)
  {
    RunKeeps(parse, START, events);
    var sys := RunSystem(parse, START, events);
    assert ClientOk(parse, sys.server, sys.clients[id]);
    DrainedStream(parse, sys, id);
  }

  lemma DrainedStream(parse: Parser, sys: System, id: nat)
    requires Drained(sys, id)
    ensures Streamed(parse, sys.server, sys.clients[id]) == Announced(sys.clients[id].trie.tree)
    ensures FlightOps(parse, sys.server) == [] == Pending(parse, sys.server)
  {
    var c := sys.clients[id];
    assert UpdateOps(c.inbox) == [] && sys.server.log[c.cursor..] == [];
  }

  /** So both answer every lookup alike, and after a sweep on each side their tries have the
      same shape, whatever slots they use. */
  lemma ConvergedTriesAgree(parse: Parser, events: seq<Event>, id: nat, addr: Key)
    requires Orderly(parse, START, events) && Drained(RunSystem(parse, START, events), id)
    requires RunSystem(parse, START, events).clients[id].missed == 0 && |addr| == MAX_PREFIX_LEN
    ensures var sys := RunSystem(parse, START, events);
            var t, u := sys.clients[id].trie, TrieOf(sys.server, sys.clients[id].family);
            var r, q := Best(t.tree, addr, NEVER), Best(u.tree, addr, NEVER);
            && (r.Bin? <==> q.Bin?) && (r.Bin? ==> r.key == q.key)
            && ShapeOf(Step(t, SweepAll).tree) == ShapeOf(Step(u, SweepAll).tree)
  {
    Convergence(parse, events, id);
    RunKeeps(parse, START, events);
    var sys := RunSystem(parse, START, events);
    assert ClientOk(parse, sys.server, sys.clients[id]);
    var t, u := sys.clients[id].trie, TrieOf(sys.server, sys.clients[id].family);
    LookupDependsOnAnnounced(t.tree, u.tree, addr);
    SweepLeavesCompact(t);
    SweepLeavesCompact(u);
    StepInv(t, SweepAll);
    StepInv(u, SweepAll);
    SameAnnouncedSameShape(Step(t, SweepAll).tree, Step(u, SweepAll).tree);
  }

  // ----- where convergence needs its assumptions -----

  /** A seed that comes after a client has subscribed is never sent to it: a drained client agrees
      with the server afterwards only if the seed adds nothing. */
  lemma LateSeed(parse: Parser, events: seq<Event>, id: nat, routes: seq<Op>)
    requires Orderly(parse, START, events) && Drained(RunSystem(parse, START, events), id)
    requires RunSystem(parse, START, events).clients[id].missed == 0 && Announces(routes)
    ensures var sys := RunSystem(parse, START, events);
            var c := sys.clients[id];
            Agree(Next(parse, sys, Seed(c.family, routes)), id)
            <==> forall op | op in routes :: op.key in Announced(c.trie.tree)
  {
    Convergence(parse, events, id);
    RunKeeps(parse, START, events);
    var sys := RunSystem(parse, START, events);
    var c := sys.clients[id];
    RunAnnounced(TrieOf(sys.server, c.family), routes);
    SeedOvertakes(Announced(c.trie.tree), [], routes);
  }

  /** Two announced sets become equal under the same operations if and only if these announce or
      withdraw every prefix on which the sets differ. */
  lemma Forgets(a: set<Key>, b: set<Key>, later: seq<Op>)
    ensures Effects(a, later) == Effects(b, later) <==> forall k: Key :: (k in a <==> k in b) || Touches(later, k)
  {
    forall k: Key
      ensures (k in Effects(a, later) <==> k in Effects(b, later)) <==> (k in a <==> k in b) || Touches(later, k)
    {
      if Touches(later, k) {
        EffectsTouched(a, b, later, k);
      } else {
        EffectsUntouched(a, later, k);
        EffectsUntouched(b, later, k);
      }
    }
  }

  /** Every prefix on which a stretch of operations had an effect is announced or withdrawn later. */
  ghost predicate MadeGood(a: set<Key>, lost: seq<Op>, later: seq<Op>) {
    forall k: Key :: (k in a <==> k in Effects(a, lost)) || Touches(later, k)
  }

  /** That is exactly when losing the stretch leaves no gap. */
  lemma LostStretch(a: set<Key>, lost: seq<Op>, later: seq<Op>)
    ensures Effects(a, later) == Effects(a, lost + later) <==> MadeGood(a, lost, later)
  {
    EffectsConcat(a, lost, later);
    Forgets(a, Effects(a, lost), later);
  }

  /** Nothing but its own deliveries happens to the client, and nothing is seeded in its family. */
  predicate LeftAlone(events: seq<Event>, id: nat, f: IpVersion) {
    forall e | e in events ::
      match e
      case Subscribe(i, _) => i != id
      case Disconnect(i) => i != id
      case Lag(i, _) => i != id
      case Seed(g, _) => g != f
      case _ => true
  }

  /** The client is headed where the stream from `from` takes `base`, while `was`, which need not be
      in the system, is headed where the server is. */
  ghost predicate Astray(parse: Parser, sys: System, id: nat, was: Client, base: set<Key>, from: nat) {
    && SystemOk(parse, sys) && OnCourse(parse, sys.server, was)
    && from <= |sys.server.log|
    && id in sys.clients && sys.clients[id].family == was.family
    && Streamed(parse, sys.server, sys.clients[id])
       == Effects(base, StreamOps(parse, sys.server.log[from..], was.family))
  }

  /** The client and the stream it follows stay together as the log grows. */
  lemma AstrayStreams(parse: Parser, sys: System, id: nat, was: Client, base: set<Key>, from: nat, e: Event)
    requires Astray(parse, sys, id, was, base, from) && Enabled(parse, sys, e) && ServerEvent(e)
    ensures var r := Next(parse, sys, e).server;
            && sys.server.log <= r.log && sys.clients[id].cursor <= |r.log|
            && Streamed(parse, r, sys.clients[id]) == Effects(base, StreamOps(parse, r.log[from..], was.family))
  {
    LogGrows(parse, sys, e);
    assert ClientOk(parse, sys.server, sys.clients[id]);
    if e.Publish? {
      PublishStreams(parse, sys.server, sys.clients[id]);
      PublishAppends(parse, sys.server, base, from, was.family);
    } else {
      assert Next(parse, sys, e).server.log == sys.server.log;
    }
  }

  lemma AstrayServerStep(parse: Parser, sys: System, id: nat, was: Client, base: set<Key>, from: nat, e: Event)
    requires Astray(parse, sys, id, was, base, from) && Enabled(parse, sys, e) && Harmless(parse, sys, e)
    requires ServerEvent(e) && (e.Seed? ==> e.family != was.family)
    ensures Astray(parse, Next(parse, sys, e), id, was, base, from)
  {
    var next := Next(parse, sys, e);
    assert SystemOk(parse, next) by {
      NextKeeps(parse, sys, e);
    }
    assert OnCourse(parse, next.server, was) by {
      ServerEventKeepsCourse(parse, sys, e, was);
    }
    AstrayStreams(parse, sys, id, was, base, from, e);
    LogGrows(parse, sys, e);
  }

  /** Deliveries do not change where the stream leads a client. */
  lemma ClientEventStreams(parse: Parser, sys: System, e: Event, id: nat)
    requires SystemOk(parse, sys) && Enabled(parse, sys, e) && !ServerEvent(e)
    requires id in sys.clients && LeftAlone([e], id, sys.clients[id].family)
    ensures var next := Next(parse, sys, e).clients;
            && id in next && next[id].family == sys.clients[id].family && next[id].cursor <= |sys.server.log|
            && Streamed(parse, sys.server, next[id]) == Streamed(parse, sys.server, sys.clients[id])
  {
    var s, c := sys.server, sys.clients[id];
    assert e in [e];
    assert ClientOk(parse, s, c);
    if e.Forward? && e.id == id {
      ForwardStreams(parse, s, c);
      assert Next(parse, sys, e).clients[id] == Forwarded(parse, s, c);
    } else if e.HandleNext? && e.id == id {
      HandleStreams(parse, s, c);
      assert Next(parse, sys, e).clients[id] == HandledNext(c);
    } else {
      assert Next(parse, sys, e).clients[id] == c;
    }
  }

  lemma AstrayStep(parse: Parser, sys: System, id: nat, was: Client, base: set<Key>, from: nat, e: Event)
    requires Astray(parse, sys, id, was, base, from) && Enabled(parse, sys, e) && Harmless(parse, sys, e)
    requires LeftAlone([e], id, was.family)
    ensures Astray(parse, Next(parse, sys, e), id, was, base, from)
  {
    assert e in [e];
    if ServerEvent(e) {
      AstrayServerStep(parse, sys, id, was, base, from, e);
    } else {
      NextKeeps(parse, sys, e);
      LogGrows(parse, sys, e);
      ClientEventStreams(parse, sys, e, id);
    }
  }

  lemma {:induction false} AstrayRun(parse: Parser, sys: System, id: nat, was: Client, base: set<Key>, from: nat,
                                     events: seq<Event>)
    requires Astray(parse, sys, id, was, base, from)
    requires Orderly(parse, sys, events) && LeftAlone(events, id, was.family)
    ensures Astray(parse, RunSystem(parse, sys, events), id, was, base, from)
    decreases |events|
  {
    if events != [] {
      assert events[0] in events;
      if Enabled(parse, sys, events[0]) {
        AstrayStep(parse, sys, id, was, base, from, events[0]);
      }
      assert forall e | e in events[1..] :: e in events;
      AstrayRun(parse, After(parse, sys, events[0]), id, was, base, from, events[1..]);
    }
  }

  /** Once drained, the client is where its stream took `base` and the server where its took `was`. */
  lemma AstrayDrained(parse: Parser, sys: System, id: nat, was: Client, base: set<Key>, from: nat)
    requires Astray(parse, sys, id, was, base, from) && Drained(sys, id)
    ensures Agree(sys, id)
            <==> Effects(base, StreamOps(parse, sys.server.log[from..], was.family))
                 == Streamed(parse, sys.server, was)
  {
    DrainedStream(parse, sys, id);
  }

  // ----- recovery from lag -----

  /** Every prefix on which client and server differ, counting what is still on its way to the
      client, is announced or withdrawn by a message published later. */
  ghost predicate GapCloses(parse: Parser, sys: System, id: nat, log: seq<RisMessage>)
    requires id in sys.clients && sys.clients[id].cursor <= |sys.server.log| <= |log|
  {
    var c := sys.clients[id];
    var later := StreamOps(parse, log[|sys.server.log|..], c.family);
    forall k: Key ::
      (k in Streamed(parse, sys.server, c) <==> k in Announced(TrieOf(sys.server, c.family).tree)) || Touches(later, k)
  }

  lemma GapStarts(parse: Parser, sys: System, id: nat)
    requires SystemOk(parse, sys) && id in sys.clients
    ensures sys.clients[id].cursor <= |sys.server.log|
    ensures var c := sys.clients[id];
            Astray(parse, sys, id, Subscriber(sys.server, c.family), Streamed(parse, sys.server, c), |sys.server.log|)
  {
    assert ClientOk(parse, sys.server, sys.clients[id]);
    SubscribeOnCourse(parse, sys.server, sys.clients[id].family);
    assert sys.server.log[|sys.server.log|..] == [];
  }

  /** Whatever a client has missed before, it agrees with the server once it is drained if and only
      if its gap has closed by then. */
  lemma Recovery(parse: Parser, sys: System, id: nat, after: seq<Event>, end: System)
    requires SystemOk(parse, sys) && id in sys.clients
    requires Orderly(parse, sys, after) && LeftAlone(after, id, sys.clients[id].family)
    requires end == RunSystem(parse, sys, after) && Drained(end, id)
    ensures sys.clients[id].cursor <= |sys.server.log| <= |end.server.log|
    ensures Agree(end, id) <==> GapCloses(parse, sys, id, end.server.log)
  {
    var c, s := sys.clients[id], sys.server;
    GapStarts(parse, sys, id);
    AstrayRun(parse, sys, id, Subscriber(s, c.family), Streamed(parse, s, c), |s.log|, after);
    AstrayDrained(parse, end, id, Subscriber(s, c.family), Streamed(parse, s, c), |s.log|);
    assert Handled(Subscriber(s, c.family)) == Announced(TrieOf(s, c.family).tree);
    Forgets(Streamed(parse, s, c), Announced(TrieOf(s, c.family).tree),
            StreamOps(parse, end.server.log[|s.log|..], c.family));
  }

  /** Of the messages published since `was`, the first `n` are made good by the others. */
  ghost predicate StretchMadeGood(parse: Parser, was: Client, n: nat, log: seq<RisMessage>)
    requires was.cursor + n <= |log|
  {
    MadeGood(Handled(was), StreamOps(parse, log[was.cursor..was.cursor + n], was.family),
             StreamOps(parse, log[was.cursor + n..], was.family))
  }

  lemma LagBegins(parse: Parser, sys: System, id: nat, n: nat)
    requires SystemOk(parse, sys) && Enabled(parse, sys, Lag(id, n)) && sys.clients[id].missed == 0
    ensures var c := sys.clients[id];
            Astray(parse, Next(parse, sys, Lag(id, n)), id, c, Handled(c), c.cursor + n)
  {
    assert ClientOk(parse, sys.server, sys.clients[id]);
    NextKeeps(parse, sys, Lag(id, n));
    SkippedStream(parse, sys.server, sys.clients[id], n);
  }

  lemma SkippedStream(parse: Parser, s: Server, c: Client, n: nat)
    requires c.cursor + n <= |s.log|
    ensures Streamed(parse, s, c.(cursor := c.cursor + n, missed := c.missed + n))
            == Effects(Handled(c), StreamOps(parse, s.log[c.cursor + n..], c.family))
  {
    assert Handled(c.(cursor := c.cursor + n, missed := c.missed + n)) == Handled(c);
  }

  lemma StretchForgotten(parse: Parser, h: set<Key>, log: seq<RisMessage>, i: nat, m: nat, f: IpVersion)
    requires i <= m <= |log|
    ensures Effects(h, StreamOps(parse, log[m..], f)) == Effects(h, StreamOps(parse, log[i..], f))
            <==> MadeGood(h, StreamOps(parse, log[i..m], f), StreamOps(parse, log[m..], f))
  {
    StreamSplit(parse, log, i, m, f);
    LostStretch(h, StreamOps(parse, log[i..m], f), StreamOps(parse, log[m..], f));
  }

  lemma StretchDrained(parse: Parser, sys: System, id: nat, was: Client, n: nat)
    requires Astray(parse, sys, id, was, Handled(was), was.cursor + n) && Drained(sys, id)
    ensures Agree(sys, id) <==> StretchMadeGood(parse, was, n, sys.server.log)
  {
    AstrayDrained(parse, sys, id, was, Handled(was), was.cursor + n);
    StretchForgotten(parse, Handled(was), sys.server.log, was.cursor, was.cursor + n, was.family);
  }

  lemma LagRun(parse: Parser, lagging: System, id: nat, c: Client, n: nat, after: seq<Event>, end: System)
    requires Astray(parse, lagging, id, c, Handled(c), c.cursor + n)
    requires Orderly(parse, lagging, after) && LeftAlone(after, id, c.family)
    requires end == RunSystem(parse, lagging, after) && Drained(end, id)
    ensures c.cursor + n <= |end.server.log|
    ensures Agree(end, id) <==> StretchMadeGood(parse, c, n, end.server.log)
  {
    assert Astray(parse, end, id, c, Handled(c), c.cursor + n) by {
      AstrayRun(parse, lagging, id, c, Handled(c), c.cursor + n, after);
    }
    StretchDrained(parse, end, id, c, n);
  }

  /** Lag: a client that misses `n` messages agrees with the server again, once drained, if and only
      if every prefix on which they had an effect was announced or withdrawn by a later one. */
  lemma LagGap(parse: Parser, sys: System, id: nat, n: nat, after: seq<Event>, end: System)
    requires SystemOk(parse, sys) && Enabled(parse, sys, Lag(id, n)) && sys.clients[id].missed == 0
    requires Orderly(parse, Next(parse, sys, Lag(id, n)), after) && LeftAlone(after, id, sys.clients[id].family)
    requires end == RunSystem(parse, Next(parse, sys, Lag(id, n)), after) && Drained(end, id)
    ensures sys.clients[id].cursor + n <= |end.server.log|
    ensures Agree(end, id) <==> StretchMadeGood(parse, sys.clients[id], n, end.server.log)
  {
    LagBegins(parse, sys, id, n);
    LagRun(parse, Next(parse, sys, Lag(id, n)), id, sys.clients[id], n, after, end);
  }

  lemma ReachableOk(parse: Parser, events: seq<Event>)
    requires Orderly(parse, START, events)
    ensures SystemOk(parse, RunSystem(parse, START, events))
  {
    RunKeeps(parse, START, events);
  }

  // ----- runs that show it -----

  /** A parser under which every string names the default route. */
  const ANY: Parser := _ => Some(ParsedCidr(V4, DEFAULT_PREFIX))

  const ANNOUNCEMENT := RisMessage(5, Update(BgpUpdate(Some([Announcement(["0.0.0.0/0"])]), None)))
  const WITHDRAWAL := RisMessage(5, Update(BgpUpdate(None, Some(["0.0.0.0/0"]))))

  lemma DefaultOps()
    ensures ServerOps(ANY, ANNOUNCEMENT) == [FamilyOp(V4, Announce([], 5))]
    ensures ServerOps(ANY, WITHDRAWAL) == [FamilyOp(V4, Retract([], 5))]
    ensures ThinUpdates(ANY, WITHDRAWAL, V4) == [ThinUpdate(DEFAULT_PREFIX, 5, WITHDRAW)]
  {
    var cidr := "0.0.0.0/0";
    assert KeyOf(DEFAULT_PREFIX) == [];
    assert [Announcement([cidr])][1..] == [] && [cidr][1..] == [];
    assert AnnouncedCidrs(ANNOUNCEMENT.body.update) == [cidr] && WithdrawnCidrs(ANNOUNCEMENT.body.update) == [];
    assert AnnouncedCidrs(WITHDRAWAL.body.update) == [] && WithdrawnCidrs(WITHDRAWAL.body.update) == [cidr];
    assert CidrOps(ANY, [cidr], 5, ANNOUNCE) == PrefixOps(ANY, cidr, 5, ANNOUNCE) + CidrOps(ANY, [], 5, ANNOUNCE);
    assert CidrOps(ANY, [cidr], 5, WITHDRAW) == PrefixOps(ANY, cidr, 5, WITHDRAW) + CidrOps(ANY, [], 5, WITHDRAW);
    assert Tag([], ANNOUNCE) + Tag([cidr], WITHDRAW) == [Tagged(cidr, WITHDRAW)];
    assert [Tagged(cidr, WITHDRAW)][1..] == [];
    var parsed := TaggedPrefix(ParsedCidr(V4, DEFAULT_PREFIX), WITHDRAW);
    assert ParseAll(ANY, [Tagged(cidr, WITHDRAW)]) == [parsed] && [parsed][1..] == [];
    assert OfFamily([parsed], V4) == [parsed];
  }

  /** A client that misses the message announcing the default route never hears of it. */
  lemma LagLeavesGap()
    ensures var sys := RunSystem(ANY, START, [Subscribe(0, V4), BeginIngest(ANNOUNCEMENT), ApplyNext, Publish, Lag(0, 1)]);
            Drained(sys, 0) && !Agree(sys, 0)
  {
    DefaultOps();
    var route := Step(INITIAL, Announce([], 5));
    var c := Client(V4, INITIAL, 0, [], 0, 0);
    var s1 := System(Server(INITIAL, INITIAL, [], None, 0), map[0 := c]);
    var s2 := System(Server(INITIAL, INITIAL, [], Some(ANNOUNCEMENT), 0), map[0 := c]);
    var s3 := System(Server(route, INITIAL, [], Some(ANNOUNCEMENT), 1), map[0 := c]);
    var s4 := System(Server(route, INITIAL, [ANNOUNCEMENT], None, 0), map[0 := c]);
    var s5 := System(s4.server, map[0 := c.(cursor := 1, missed := 1)]);
    assert After(ANY, START, Subscribe(0, V4)) == s1;
    assert After(ANY, s1, BeginIngest(ANNOUNCEMENT)) == s2;
    assert After(ANY, s2, ApplyNext) == s3;
    assert After(ANY, s3, Publish) == s4;
    assert After(ANY, s4, Lag(0, 1)) == s5;
    var events := [Subscribe(0, V4), BeginIngest(ANNOUNCEMENT), ApplyNext, Publish, Lag(0, 1)];
    RunFive(ANY, START, events);
    assert [] in Announced(route.tree);
  }

  lemma RunFive(parse: Parser, sys: System, events: seq<Event>)
    requires |events| == 5
    ensures RunSystem(parse, sys, events)
            == After(parse, After(parse, After(parse, After(parse, After(parse, sys, events[0]),
                                                            events[1]), events[2]), events[3]), events[4])
  {
    var s1 := After(parse, sys, events[0]);
    var s2 := After(parse, s1, events[1]);
    var s3 := After(parse, s2, events[2]);
    RunTwoMore(parse, sys, events);
    RunTwoMore(parse, s2, events[2..]);
    assert events[2..][2..] == [events[4]];
    assert [events[4]][1..] == [];
  }

  lemma RunTwoMore(parse: Parser, sys: System, events: seq<Event>)
    requires |events| >= 2
    ensures RunSystem(parse, sys, events)
            == RunSystem(parse, After(parse, After(parse, sys, events[0]), events[1]), events[2..])
  {
    assert events[1..][0] == events[1] && events[1..][1..] == events[2..];
  }

  /** A seed brings the default route back after the message in flight has withdrawn it.  A client
      that subscribes then gets the route in its snapshot and the withdrawal in its stream. */
  lemma SeedBringsBack()
    ensures var started := RunSystem(ANY, START, [BeginIngest(WITHDRAWAL), ApplyNext]);
            var seeded := After(ANY, started, Seed(V4, [Announce([], 3)]));
            var sys := RunSystem(ANY, seeded, [Subscribe(0, V4), Publish, Forward(0), HandleNext(0)]);
            && !SeedHarmless(ANY, started, V4, [Announce([], 3)])
            && Drained(sys, 0) && sys.clients[0].missed == 0 && !Agree(sys, 0)
  {
    var started := System(Server(INITIAL, INITIAL, [], Some(WITHDRAWAL), 1), map[]);
    SeedStarts(started);
    RunOne(INITIAL, Announce([], 3));
    var seeded := System(Server(Step(INITIAL, Announce([], 3)), INITIAL, [], Some(WITHDRAWAL), 1), map[]);
    assert After(ANY, started, Seed(V4, [Announce([], 3)])) == seeded;
    SeedIsWithdrawn(seeded, Step(INITIAL, Announce([], 3)));
  }

  lemma SeedIsWithdrawn(seeded: System, route: State)
    requires route == Step(INITIAL, Announce([], 3))
    requires seeded == System(Server(route, INITIAL, [], Some(WITHDRAWAL), 1), map[])
    ensures var sys := RunSystem(ANY, seeded, [Subscribe(0, V4), Publish, Forward(0), HandleNext(0)]);
            Drained(sys, 0) && sys.clients[0].missed == 0 && !Agree(sys, 0)
  {
    DefaultOps();
    var gone := Step(route, Retract([], 5));
    var update := ThinUpdate(DEFAULT_PREFIX, 5, WITHDRAW);
    var c := Client(V4, route, 0, [], 0, 0);
    var s1 := System(seeded.server, map[0 := c]);
    var s2 := System(Server(route, INITIAL, [WITHDRAWAL], None, 0), map[0 := c]);
    var s3 := System(s2.server, map[0 := c.(inbox := [update], cursor := 1)]);
    var s4 := System(s2.server, map[0 := c.(trie := gone, cursor := 1, sinceSweep := 1)]);
    assert route.(sweeps := 0) == route;
    assert After(ANY, seeded, Subscribe(0, V4)) == s1;
    assert After(ANY, s1, Publish) == s2;
    assert Forwarded(ANY, s2.server, c) == c.(inbox := [update], cursor := 1);
    assert After(ANY, s2, Forward(0)) == s3;
    UpdateHandled(c.(inbox := [update], cursor := 1), update, gone);
    assert After(ANY, s3, HandleNext(0)) == s4;
    var events := [Subscribe(0, V4), Publish, Forward(0), HandleNext(0)];
    RunTwoMore(ANY, seeded, events);
    RunTwoMore(ANY, s2, events[2..]);
    assert events[2..][2..] == [];
    assert Announced(route.tree) == {[]} && Announced(gone.tree) == {};
  }

  lemma UpdateHandled(c: Client, update: ThinUpdate, gone: State)
    requires update == ThinUpdate(DEFAULT_PREFIX, 5, WITHDRAW) && c.inbox == [update] && c.sinceSweep == 0
    requires gone == Step(c.trie, Retract([], 5))
    ensures HandledNext(c) == c.(trie := gone, inbox := [], sinceSweep := 1)
  {
    assert KeyOf(DEFAULT_PREFIX) == [] && UpdateOp(update) == Retract([], 5);
    assert HandleOps(update, 0) == [Retract([], 5)];
    RunOne(c.trie, Retract([], 5));
    assert [update][1..] == [];
  }

  lemma SeedStarts(started: System)
    requires started == System(Server(INITIAL, INITIAL, [], Some(WITHDRAWAL), 1), map[])
    ensures RunSystem(ANY, START, [BeginIngest(WITHDRAWAL), ApplyNext]) == started
    ensures !SeedHarmless(ANY, started, V4, [Announce([], 3)])
  {
    DefaultOps();
    var events := [BeginIngest(WITHDRAWAL), ApplyNext];
    RunTwoMore(ANY, START, events);
    assert events[2..] == [];
    var op := Retract([], 5);
    assert [FamilyOp(V4, op)][1..] == [];
    assert Restrict(Applied(ANY, started.server), V4) == [op] && Restrict(Pending(ANY, started.server), V4) == [];
    assert op in [op];
    assert Announce([], 3) in [Announce([], 3)];
  }
}
