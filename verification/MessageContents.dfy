/** What a message says, field by field, and that both sides do exactly that. */
module MessageContents {
  import opened Prefixes
  import opened TrieStates
  import opened Messages

  predicate InFamily(parse: Parser, cidr: string, f: IpVersion) {
    parse(cidr).Some? && parse(cidr).value.version == f
  }

  predicate Names(parse: Parser, cidr: string, f: IpVersion, k: Key) {
    InFamily(parse, cidr, f) && KeyOf(parse(cidr).value.prefix) == k
  }

  /** Some announcement of the message, in whatever next-hop group, has the prefix `k`. */
  ghost predicate AnnouncesKey(parse: Parser, m: RisMessage, f: IpVersion, k: Key) {
    && m.body.Update? && m.body.update.announcements.Some?
    && exists g, cidr | g in m.body.update.announcements.value && cidr in g.prefixes :: Names(parse, cidr, f, k)
  }

  ghost predicate WithdrawsKey(parse: Parser, m: RisMessage, f: IpVersion, k: Key) {
    && m.body.Update? && m.body.update.withdrawals.Some?
    && exists cidr | cidr in m.body.update.withdrawals.value :: Names(parse, cidr, f, k)
  }

  // ----- the effect on a family's announced set -----

  ghost predicate NamedIn(parse: Parser, cidrs: seq<string>, f: IpVersion, k: Key) {
    exists cidr | cidr in cidrs :: Names(parse, cidr, f, k)
  }

  lemma OneCidrEffect(parse: Parser, a: set<Key>, cidr: string, ts: nat, kind: UpdateKind, f: IpVersion, k: Key)
    ensures k in Effects(a, Restrict(PrefixOps(parse, cidr, ts, kind), f))
            <==> if kind.ANNOUNCE? then k in a || Names(parse, cidr, f, k) else k in a && !Names(parse, cidr, f, k)
  {
    match parse(cidr)
    case None =>
    case Some(p) =>
      var op := UpdateOp(ThinUpdate(p.prefix, ts, kind));
      assert PrefixOps(parse, cidr, ts, kind)[1..] == [];
      assert Restrict(PrefixOps(parse, cidr, ts, kind), f) == if p.version == f then [op] else [];
      assert [op][1..] == [];
  }

  lemma {:induction false} CidrsEffect(parse: Parser, a: set<Key>, cidrs: seq<string>, ts: nat, kind: UpdateKind,
                                       f: IpVersion, k: Key)
    ensures k in Effects(a, Restrict(CidrOps(parse, cidrs, ts, kind), f))
            <==> if kind.ANNOUNCE? then k in a || NamedIn(parse, cidrs, f, k) else k in a && !NamedIn(parse, cidrs, f, k)
    decreases |cidrs|
  {
    if cidrs != [] {
      var first, rest := PrefixOps(parse, cidrs[0], ts, kind), CidrOps(parse, cidrs[1..], ts, kind);
      RestrictConcat(first, rest, f);
      EffectsConcat(a, Restrict(first, f), Restrict(rest, f));
      OneCidrEffect(parse, a, cidrs[0], ts, kind, f, k);
      CidrsEffect(parse, Effects(a, Restrict(first, f)), cidrs[1..], ts, kind, f, k);
      assert forall cidr :: cidr in cidrs <==> cidr == cidrs[0] || cidr in cidrs[1..];
    }
  }

  lemma {:induction false} FlattenMember(groups: seq<Announcement>, cidr: string)
    ensures cidr in Flatten(groups) <==> exists g | g in groups :: cidr in g.prefixes
  {
    if groups != [] {
      FlattenMember(groups[1..], cidr);
      assert forall g :: g in groups <==> g == groups[0] || g in groups[1..];
    }
  }

  lemma AnnouncedNames(parse: Parser, u: BgpUpdate, ts: nat, f: IpVersion, k: Key)
    ensures NamedIn(parse, AnnouncedCidrs(u), f, k) <==> AnnouncesKey(parse, RisMessage(ts, Update(u)), f, k)
  {
    if u.announcements.Some? {
      var groups := u.announcements.value;
      if NamedIn(parse, Flatten(groups), f, k) {
        var cidr :| cidr in Flatten(groups) && Names(parse, cidr, f, k);
        FlattenMember(groups, cidr);
      }
      if g, cidr :| g in groups && cidr in g.prefixes && Names(parse, cidr, f, k) {
        FlattenMember(groups, cidr);
      }
    }
  }

  /** A message adds every prefix of the family that any of its groups announces, and then removes
      every one that it withdraws. */
  lemma MessageEffect(parse: Parser, a: set<Key>, m: RisMessage, f: IpVersion)
    ensures forall k: Key ::
              k in Effects(a, Restrict(ServerOps(parse, m), f))
              <==> (k in a || AnnouncesKey(parse, m, f, k)) && !WithdrawsKey(parse, m, f, k)
  {
    forall k: Key
      ensures k in Effects(a, Restrict(ServerOps(parse, m), f))
              <==> (k in a || AnnouncesKey(parse, m, f, k)) && !WithdrawsKey(parse, m, f, k)
    {
      if m.body.Update? {
        UpdateEffect(parse, a, m.body.update, m.ts, f, k);
      }
    }
  }

  lemma UpdateEffect(parse: Parser, a: set<Key>, u: BgpUpdate, ts: nat, f: IpVersion, k: Key)
    ensures var m := RisMessage(ts, Update(u));
            k in Effects(a, Restrict(ServerOps(parse, m), f))
            <==> (k in a || AnnouncesKey(parse, m, f, k)) && !WithdrawsKey(parse, m, f, k)
  {
    var announced := CidrOps(parse, AnnouncedCidrs(u), ts, ANNOUNCE);
    var withdrawn := CidrOps(parse, WithdrawnCidrs(u), ts, WITHDRAW);
    RestrictConcat(announced, withdrawn, f);
    EffectsConcat(a, Restrict(announced, f), Restrict(withdrawn, f));
    CidrsEffect(parse, a, AnnouncedCidrs(u), ts, ANNOUNCE, f, k);
    CidrsEffect(parse, Effects(a, Restrict(announced, f)), WithdrawnCidrs(u), ts, WITHDRAW, f, k);
    AnnouncedNames(parse, u, ts, f, k);
  }

  // ----- what is sent, position by position -----

  function FamilyCount(parse: Parser, cidrs: seq<string>, f: IpVersion): nat {
    if cidrs == [] then 0
    else (if InFamily(parse, cidrs[0], f) then 1 else 0) + FamilyCount(parse, cidrs[1..], f)
  }

  function GroupsCount(parse: Parser, groups: seq<Announcement>, f: IpVersion): nat {
    if groups == [] then 0
    else FamilyCount(parse, groups[0].prefixes, f) + GroupsCount(parse, groups[1..], f)
  }

  function GroupsOf(m: RisMessage): seq<Announcement> {
    if m.body.Update? && m.body.update.announcements.Some? then m.body.update.announcements.value else []
  }

  function WithdrawalsOf(m: RisMessage): seq<string> {
    if m.body.Update? && m.body.update.withdrawals.Some? then m.body.update.withdrawals.value else []
  }

  lemma {:induction false} FamilyCountConcat(parse: Parser, a: seq<string>, b: seq<string>, f: IpVersion)
    ensures FamilyCount(parse, a + b, f) == FamilyCount(parse, a, f) + FamilyCount(parse, b, f)
  {
    if a == [] {
      assert a + b == b;
    } else {
      FamilyCountConcat(parse, a[1..], b, f);
      assert (a + b)[1..] == a[1..] + b;
    }
  }

  /** The parsed prefixes of the family, in order. */
  function Selected(parse: Parser, tagged: seq<Tagged>, f: IpVersion): seq<TaggedPrefix> {
    OfFamily(ParseAll(parse, tagged), f)
  }

  lemma SelectedConcat(parse: Parser, a: seq<Tagged>, b: seq<Tagged>, f: IpVersion)
    ensures Selected(parse, a + b, f) == Selected(parse, a, f) + Selected(parse, b, f)
  {
    ParseAllConcat(parse, a, b);
    OfFamilyConcat(ParseAll(parse, a), ParseAll(parse, b), f);
  }

  lemma SelectedOne(parse: Parser, cidr: string, kind: UpdateKind, f: IpVersion)
    ensures Selected(parse, [Tagged(cidr, kind)], f)
            == if InFamily(parse, cidr, f) then [TaggedPrefix(parse(cidr).value, kind)] else []
  {
    var tagged := [Tagged(cidr, kind)];
    assert tagged[1..] == [];
    match parse(cidr)
    case None =>
      assert ParseAll(parse, tagged) == [];
    case Some(p) =>
      var parsed := [TaggedPrefix(p, kind)];
      assert parsed[1..] == [];
      assert ParseAll(parse, tagged) == parsed;
      assert OfFamily(parsed, f) == if p.version == f then parsed else [];
  }

  lemma SelectedFirst(parse: Parser, cidrs: seq<string>, kind: UpdateKind, f: IpVersion)
    requires cidrs != []
    ensures Selected(parse, Tag(cidrs, kind), f)
            == (if InFamily(parse, cidrs[0], f) then [TaggedPrefix(parse(cidrs[0]).value, kind)] else [])
               + Selected(parse, Tag(cidrs[1..], kind), f)
  {
    TagFirst(cidrs, kind);
    SelectedConcat(parse, [Tagged(cidrs[0], kind)], Tag(cidrs[1..], kind), f);
    SelectedOne(parse, cidrs[0], kind, f);
  }

  lemma {:induction false} SelectedLength(parse: Parser, cidrs: seq<string>, kind: UpdateKind, f: IpVersion)
    ensures |Selected(parse, Tag(cidrs, kind), f)| == FamilyCount(parse, cidrs, f)
  {
    if cidrs != [] {
      SelectedFirst(parse, cidrs, kind, f);
      SelectedLength(parse, cidrs[1..], kind, f);
    }
  }

  lemma {:induction false} SelectedAt(parse: Parser, cidrs: seq<string>, kind: UpdateKind, f: IpVersion, j: nat)
    requires j < |cidrs| && InFamily(parse, cidrs[j], f)
    ensures var at, s := FamilyCount(parse, cidrs[..j], f), Selected(parse, Tag(cidrs, kind), f);
            at < |s| && s[at] == TaggedPrefix(parse(cidrs[j]).value, kind)
  {
    SelectedFirst(parse, cidrs, kind, f);
    if j > 0 {
      SelectedAt(parse, cidrs[1..], kind, f, j - 1);
      assert cidrs[..j][0] == cidrs[0] && cidrs[..j][1..] == cidrs[1..][..j - 1];
    }
  }

  lemma {:induction false} SelectedFrom(parse: Parser, cidrs: seq<string>, f: IpVersion, at: nat) returns (j: nat)
    requires at < FamilyCount(parse, cidrs, f)
    ensures j < |cidrs| && InFamily(parse, cidrs[j], f) && at == FamilyCount(parse, cidrs[..j], f)
  {
    var own := if InFamily(parse, cidrs[0], f) then 1 else 0;
    if at < own {
      j := 0;
    } else {
      var i := SelectedFrom(parse, cidrs[1..], f, at - own);
      j := i + 1;
      assert cidrs[..j][0] == cidrs[0] && cidrs[..j][1..] == cidrs[1..][..i];
    }
  }

  lemma {:induction false} FlattenCount(parse: Parser, groups: seq<Announcement>, f: IpVersion)
    ensures FamilyCount(parse, Flatten(groups), f) == GroupsCount(parse, groups, f)
  {
    if groups != [] {
      FlattenCount(parse, groups[1..], f);
      FamilyCountConcat(parse, groups[0].prefixes, Flatten(groups[1..]), f);
    }
  }

  /** Where prefix `j` of group `i` is among all announced prefixes. */
  lemma {:induction false} FlattenAt(parse: Parser, groups: seq<Announcement>, f: IpVersion, i: nat, j: nat)
    returns (n: nat)
    requires i < |groups| && j < |groups[i].prefixes|
    ensures n < |Flatten(groups)| && Flatten(groups)[n] == groups[i].prefixes[j]
    ensures FamilyCount(parse, Flatten(groups)[..n], f)
            == GroupsCount(parse, groups[..i], f) + FamilyCount(parse, groups[i].prefixes[..j], f)
  {
    var first := groups[0].prefixes;
    if i == 0 {
      n := j;
      assert Flatten(groups)[..n] == first[..j];
    } else {
      var k := FlattenAt(parse, groups[1..], f, i - 1, j);
      n := |first| + k;
      assert Flatten(groups)[..n] == first + Flatten(groups[1..])[..k];
      FamilyCountConcat(parse, first, Flatten(groups[1..])[..k], f);
      assert groups[..i][0] == groups[0] && groups[..i][1..] == groups[1..][..i - 1];
    }
  }

  lemma {:induction false} GroupsFrom(parse: Parser, groups: seq<Announcement>, f: IpVersion, at: nat)
    returns (i: nat, j: nat)
    requires at < GroupsCount(parse, groups, f)
    ensures i < |groups| && j < |groups[i].prefixes| && InFamily(parse, groups[i].prefixes[j], f)
    ensures at == GroupsCount(parse, groups[..i], f) + FamilyCount(parse, groups[i].prefixes[..j], f)
  {
    var own := FamilyCount(parse, groups[0].prefixes, f);
    if at < own {
      i := 0;
      j := SelectedFrom(parse, groups[0].prefixes, f, at);
    } else {
      var k;
      k, j := GroupsFrom(parse, groups[1..], f, at - own);
      i := k + 1;
      assert groups[..i][0] == groups[0] && groups[..i][1..] == groups[1..][..k];
    }
  }

  lemma Halves(parse: Parser, m: RisMessage, f: IpVersion)
    requires m.body.Update?
    ensures var a := Selected(parse, Tag(Flatten(GroupsOf(m)), ANNOUNCE), f);
            var w := Selected(parse, Tag(WithdrawalsOf(m), WITHDRAW), f);
            var sent := ThinUpdates(parse, m, f);
            && |a| == GroupsCount(parse, GroupsOf(m), f) && |w| == FamilyCount(parse, WithdrawalsOf(m), f)
            && |sent| == |a| + |w|
            && (forall i | 0 <= i < |a| :: sent[i] == ThinUpdate(a[i].parsed.prefix, m.ts, a[i].kind))
            && (forall i | 0 <= i < |w| :: sent[|a| + i] == ThinUpdate(w[i].parsed.prefix, m.ts, w[i].kind))
  {
    SelectedConcat(parse, Tag(Flatten(GroupsOf(m)), ANNOUNCE), Tag(WithdrawalsOf(m), WITHDRAW), f);
    SelectedLength(parse, Flatten(GroupsOf(m)), ANNOUNCE, f);
    SelectedLength(parse, WithdrawalsOf(m), WITHDRAW, f);
    FlattenCount(parse, GroupsOf(m), f);
  }

  /** As many updates are sent as the message has prefixes of the family. */
  lemma SentLength(parse: Parser, m: RisMessage, f: IpVersion)
    ensures |ThinUpdates(parse, m, f)| == GroupsCount(parse, GroupsOf(m), f) + FamilyCount(parse, WithdrawalsOf(m), f)
  {
    if m.body.Update? {
      Halves(parse, m, f);
    }
  }

  /** Every announced prefix of the family is sent, with the message's timestamp, after those that
      come before it. */
  lemma AnnouncementSent(parse: Parser, m: RisMessage, f: IpVersion, i: nat, j: nat)
    requires i < |GroupsOf(m)| && j < |GroupsOf(m)[i].prefixes| && InFamily(parse, GroupsOf(m)[i].prefixes[j], f)
    ensures var g := GroupsOf(m);
            var at := GroupsCount(parse, g[..i], f) + FamilyCount(parse, g[i].prefixes[..j], f);
            var prefix, sent := parse(g[i].prefixes[j]).value.prefix, ThinUpdates(parse, m, f);
            && at < |sent| && sent[at] == ThinUpdate(prefix, m.ts, ANNOUNCE)
            && at < |Restrict(ServerOps(parse, m), f)|
            && Restrict(ServerOps(parse, m), f)[at] == Announce(KeyOf(prefix), m.ts)
  {
    Halves(parse, m, f);
    var n := FlattenAt(parse, GroupsOf(m), f, i, j);
    SelectedAt(parse, Flatten(GroupsOf(m)), ANNOUNCE, f, n);
    ThinUpdatesAreServerOps(parse, m, f);
  }

  /** And every withdrawn one, after all announcements. */
  lemma WithdrawalSent(parse: Parser, m: RisMessage, f: IpVersion, j: nat)
    requires j < |WithdrawalsOf(m)| && InFamily(parse, WithdrawalsOf(m)[j], f)
    ensures var at := GroupsCount(parse, GroupsOf(m), f) + FamilyCount(parse, WithdrawalsOf(m)[..j], f);
            var prefix, sent := parse(WithdrawalsOf(m)[j]).value.prefix, ThinUpdates(parse, m, f);
            && at < |sent| && sent[at] == ThinUpdate(prefix, m.ts, WITHDRAW)
            && at < |Restrict(ServerOps(parse, m), f)|
            && Restrict(ServerOps(parse, m), f)[at] == Retract(KeyOf(prefix), m.ts)
  {
    Halves(parse, m, f);
    SelectedAt(parse, WithdrawalsOf(m), WITHDRAW, f, j);
    ThinUpdatesAreServerOps(parse, m, f);
  }

  /** Nothing else is sent: each update stands for one prefix of the message. */
  lemma NothingElseSent(parse: Parser, m: RisMessage, f: IpVersion, at: nat) returns (i: nat, j: nat)
    requires at < |ThinUpdates(parse, m, f)|
    ensures var g, w := GroupsOf(m), WithdrawalsOf(m);
            if at < GroupsCount(parse, g, f) then
              && i < |g| && j < |g[i].prefixes| && InFamily(parse, g[i].prefixes[j], f)
              && at == GroupsCount(parse, g[..i], f) + FamilyCount(parse, g[i].prefixes[..j], f)
            else
              && j < |w| && InFamily(parse, w[j], f)
              && at == GroupsCount(parse, g, f) + FamilyCount(parse, w[..j], f)
  {
    SentLength(parse, m, f);
    if at < GroupsCount(parse, GroupsOf(m), f) {
      i, j := GroupsFrom(parse, GroupsOf(m), f, at);
    } else {
      i := 0;
      j := SelectedFrom(parse, WithdrawalsOf(m), f, at - GroupsCount(parse, GroupsOf(m), f));
    }
  }
}
