/** RIS messages, the updates sent to clients, and what each side makes of a message
    (`messages.rs`, `wire.rs`, `route_table.rs`). */
module Messages {
  import opened Prefixes
  import opened TrieStates

  datatype Option<T> = None | Some(value: T)

  datatype IpVersion = V4 | V6

  /** `Prefix::parse_cidr`: left abstract, but the same function on both sides. */
  datatype ParsedCidr = ParsedCidr(version: IpVersion, prefix: Prefix)

  type Parser = string -> Option<ParsedCidr>

  // ----- server messages -----

  datatype Announcement = Announcement(prefixes: seq<string>)

  datatype BgpUpdate = BgpUpdate(announcements: Option<seq<Announcement>>, withdrawals: Option<seq<string>>)

  datatype MessageBody = Update(update: BgpUpdate) | NotAnUpdate

  datatype RisMessage = RisMessage(ts: nat, body: MessageBody)

  function Flatten(groups: seq<Announcement>): seq<string> {
    if groups == [] then [] else groups[0].prefixes + Flatten(groups[1..])
  }

  function AnnouncedCidrs(u: BgpUpdate): seq<string> {
    match u.announcements
    case None => []
    case Some(groups) => Flatten(groups)
  }

  function WithdrawnCidrs(u: BgpUpdate): seq<string> {
    match u.withdrawals
    case None => []
    case Some(cidrs) => cidrs
  }

  // ----- client updates -----

  datatype UpdateKind = ANNOUNCE | WITHDRAW

  datatype ThinUpdate = ThinUpdate(prefix: Prefix, ts: nat, kind: UpdateKind)

  function UpdateOp(u: ThinUpdate): Op {
    match u.kind
    case ANNOUNCE => Announce(KeyOf(u.prefix), u.ts)
    case WITHDRAW => Retract(KeyOf(u.prefix), u.ts)
  }

  function UpdateOps(updates: seq<ThinUpdate>): seq<Op> {
    seq(|updates|, i requires 0 <= i < |updates| => UpdateOp(updates[i]))
  }

  // ----- `to_thin_updates`: chain, parse, filter, map -----

  datatype Tagged = Tagged(cidr: string, kind: UpdateKind)

  function Tag(cidrs: seq<string>, kind: UpdateKind): seq<Tagged> {
    seq(|cidrs|, i requires 0 <= i < |cidrs| => Tagged(cidrs[i], kind))
  }

  datatype TaggedPrefix = TaggedPrefix(parsed: ParsedCidr, kind: UpdateKind)

  function ParseAll(parse: Parser, tagged: seq<Tagged>): seq<TaggedPrefix> {
    if tagged == [] then [] else ParseOne(parse, tagged[0]) + ParseAll(parse, tagged[1..])
  }

  /** An unparseable prefix is skipped. */
  function ParseOne(parse: Parser, tagged: Tagged): seq<TaggedPrefix> {
    match parse(tagged.cidr)
    case None => []
    case Some(parsed) => [TaggedPrefix(parsed, tagged.kind)]
  }

  function OfFamily(ps: seq<TaggedPrefix>, f: IpVersion): seq<TaggedPrefix> {
    if ps == [] then []
    else (if ps[0].parsed.version == f then [ps[0]] else []) + OfFamily(ps[1..], f)
  }

  function ToThinUpdates(parse: Parser, u: BgpUpdate, ts: nat, f: IpVersion): seq<ThinUpdate> {
    var ps := OfFamily(ParseAll(parse, Tag(AnnouncedCidrs(u), ANNOUNCE) + Tag(WithdrawnCidrs(u), WITHDRAW)), f);
    seq(|ps|, i requires 0 <= i < |ps| => ThinUpdate(ps[i].parsed.prefix, ts, ps[i].kind))
  }

  /** `ris_message_to_slash0_messages`: only updates reach a client. */
  function ThinUpdates(parse: Parser, m: RisMessage, f: IpVersion): seq<ThinUpdate> {
    match m.body
    case Update(u) => ToThinUpdates(parse, u, m.ts, f)
    case NotAnUpdate => []
  }

  // ----- `apply_message`: one locked operation per parseable prefix -----

  datatype FamilyOp = FamilyOp(version: IpVersion, op: Op)

  function PrefixOps(parse: Parser, cidr: string, ts: nat, kind: UpdateKind): seq<FamilyOp> {
    match parse(cidr)
    case None => []
    case Some(p) => [FamilyOp(p.version, UpdateOp(ThinUpdate(p.prefix, ts, kind)))]
  }

  function CidrOps(parse: Parser, cidrs: seq<string>, ts: nat, kind: UpdateKind): seq<FamilyOp> {
    if cidrs == [] then []
    else PrefixOps(parse, cidrs[0], ts, kind) + CidrOps(parse, cidrs[1..], ts, kind)
  }

  function ServerOps(parse: Parser, m: RisMessage): seq<FamilyOp> {
    match m.body
    case Update(u) =>
      CidrOps(parse, AnnouncedCidrs(u), m.ts, ANNOUNCE) + CidrOps(parse, WithdrawnCidrs(u), m.ts, WITHDRAW)
    case NotAnUpdate => []
  }

  function Restrict(ops: seq<FamilyOp>, f: IpVersion): seq<Op> {
    if ops == [] then [] else RestrictOne(ops[0], f) + Restrict(ops[1..], f)
  }

  function RestrictOne(op: FamilyOp, f: IpVersion): seq<Op> {
    if op.version == f then [op.op] else []
  }

  // ----- both sides do the same to a family -----

  lemma Associative<T>(a: seq<T>, b: seq<T>, c: seq<T>)
    ensures (a + b) + c == a + (b + c)
  {
  }

  lemma {:induction false} RestrictConcat(a: seq<FamilyOp>, b: seq<FamilyOp>, f: IpVersion)
    ensures Restrict(a + b, f) == Restrict(a, f) + Restrict(b, f)
  {
    if a == [] {
      assert a + b == b;
    } else {
      RestrictConcat(a[1..], b, f);
      assert (a + b)[1..] == a[1..] + b;
      Associative(RestrictOne(a[0], f), Restrict(a[1..], f), Restrict(b, f));
    }
  }

  lemma {:induction false} ParseAllConcat(parse: Parser, a: seq<Tagged>, b: seq<Tagged>)
    ensures ParseAll(parse, a + b) == ParseAll(parse, a) + ParseAll(parse, b)
  {
    if a == [] {
      assert a + b == b;
    } else {
      ParseAllConcat(parse, a[1..], b);
      assert (a + b)[1..] == a[1..] + b;
      Associative(ParseOne(parse, a[0]), ParseAll(parse, a[1..]), ParseAll(parse, b));
    }
  }

  lemma {:induction false} OfFamilyConcat(a: seq<TaggedPrefix>, b: seq<TaggedPrefix>, f: IpVersion)
    ensures OfFamily(a + b, f) == OfFamily(a, f) + OfFamily(b, f)
  {
    if a == [] {
      assert a + b == b;
    } else {
      OfFamilyConcat(a[1..], b, f);
      assert (a + b)[1..] == a[1..] + b;
      Associative(if a[0].parsed.version == f then [a[0]] else [], OfFamily(a[1..], f), OfFamily(b, f));
    }
  }

  function TaggedOps(ps: seq<TaggedPrefix>, ts: nat): seq<Op> {
    seq(|ps|, i requires 0 <= i < |ps| => UpdateOp(ThinUpdate(ps[i].parsed.prefix, ts, ps[i].kind)))
  }

  /** The chain of `to_thin_updates` on tagged strings, as operations. */
  function Pipeline(parse: Parser, tagged: seq<Tagged>, ts: nat, f: IpVersion): seq<Op> {
    TaggedOps(OfFamily(ParseAll(parse, tagged), f), ts)
  }

  lemma PipelineConcat(parse: Parser, a: seq<Tagged>, b: seq<Tagged>, ts: nat, f: IpVersion)
    ensures Pipeline(parse, a + b, ts, f) == Pipeline(parse, a, ts, f) + Pipeline(parse, b, ts, f)
  {
    ParseAllConcat(parse, a, b);
    OfFamilyConcat(ParseAll(parse, a), ParseAll(parse, b), f);
  }

  lemma OneCidrAgrees(parse: Parser, cidr: string, ts: nat, kind: UpdateKind, f: IpVersion)
    ensures Restrict(PrefixOps(parse, cidr, ts, kind), f) == Pipeline(parse, [Tagged(cidr, kind)], ts, f)
  {
    var tagged := [Tagged(cidr, kind)];
    assert tagged[1..] == [];
    match parse(cidr)
    case None =>
      assert ParseAll(parse, tagged) == [];
    case Some(p) =>
      var parsed := [TaggedPrefix(p, kind)];
      assert parsed[1..] == [];
      assert ParseAll(parse, tagged) == parsed;
      var op := UpdateOp(ThinUpdate(p.prefix, ts, kind));
      assert TaggedOps(OfFamily(parsed, f), ts) == if p.version == f then [op] else [];
      assert PrefixOps(parse, cidr, ts, kind)[1..] == [];
  }

  lemma {:induction false} CidrsAgree(parse: Parser, cidrs: seq<string>, ts: nat, kind: UpdateKind, f: IpVersion)
    ensures Restrict(CidrOps(parse, cidrs, ts, kind), f) == Pipeline(parse, Tag(cidrs, kind), ts, f)
  {
    if cidrs != [] {
      CidrsAgree(parse, cidrs[1..], ts, kind, f);
      OneCidrAgrees(parse, cidrs[0], ts, kind, f);
      RestrictConcat(PrefixOps(parse, cidrs[0], ts, kind), CidrOps(parse, cidrs[1..], ts, kind), f);
      PipelineConcat(parse, [Tagged(cidrs[0], kind)], Tag(cidrs[1..], kind), ts, f);
      TagFirst(cidrs, kind);
    }
  }

  lemma TagFirst(cidrs: seq<string>, kind: UpdateKind)
    requires cidrs != []
    ensures Tag(cidrs, kind) == [Tagged(cidrs[0], kind)] + Tag(cidrs[1..], kind)
  {
  }

  lemma BothHalvesAgree(parse: Parser, announced: seq<string>, withdrawn: seq<string>, ts: nat, f: IpVersion)
    ensures Restrict(CidrOps(parse, announced, ts, ANNOUNCE) + CidrOps(parse, withdrawn, ts, WITHDRAW), f)
            == Pipeline(parse, Tag(announced, ANNOUNCE) + Tag(withdrawn, WITHDRAW), ts, f)
  {
    CidrsAgree(parse, announced, ts, ANNOUNCE, f);
    CidrsAgree(parse, withdrawn, ts, WITHDRAW, f);
    RestrictConcat(CidrOps(parse, announced, ts, ANNOUNCE), CidrOps(parse, withdrawn, ts, WITHDRAW), f);
    PipelineConcat(parse, Tag(announced, ANNOUNCE), Tag(withdrawn, WITHDRAW), ts, f);
  }

  /** A client's updates are exactly the server's operations on its family, in order. */
  lemma ThinUpdatesAreServerOps(parse: Parser, m: RisMessage, f: IpVersion)
    ensures UpdateOps(ThinUpdates(parse, m, f)) == Restrict(ServerOps(parse, m), f)
  {
    match m.body
    case NotAnUpdate =>
    case Update(u) =>
      BothHalvesAgree(parse, AnnouncedCidrs(u), WithdrawnCidrs(u), m.ts, f);
      assert UpdateOps(ToThinUpdates(parse, u, m.ts, f)) == Restrict(ServerOps(parse, m), f);
  }
}
