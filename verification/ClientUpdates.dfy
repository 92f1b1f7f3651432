/** What the client does to its trie with the updates it is sent (`handle_update` in `lib.rs`). */
module ClientUpdates {
  import opened Prefixes
  import opened Trie
  import opened TrieStates
  import opened TrieGrowth
  import opened Messages
  import TrieShape

  const UPDATES_PER_SWEEP := 5000

  /** The operations one update amounts to, given how many came since the last sweep. */
  function HandleOps(u: ThinUpdate, sinceSweep: nat): seq<Op> {
    if sinceSweep + 1 > UPDATES_PER_SWEEP then [UpdateOp(u), SweepAll] else [UpdateOp(u)]
  }

  function SinceSweep(sinceSweep: nat): nat {
    if sinceSweep + 1 > UPDATES_PER_SWEEP then 0 else sinceSweep + 1
  }

  /** The operations a sequence of updates amounts to, sweeps included. */
  function ClientOps(updates: seq<ThinUpdate>, sinceSweep: nat): seq<Op>
    decreases |updates|
  {
    if updates == [] then []
    else HandleOps(updates[0], sinceSweep) + ClientOps(updates[1..], SinceSweep(sinceSweep))
  }

  /** And how many came since the last sweep after them. */
  function SinceSweeps(updates: seq<ThinUpdate>, sinceSweep: nat): nat
    decreases |updates|
  {
    if updates == [] then sinceSweep else SinceSweeps(updates[1..], SinceSweep(sinceSweep))
  }

  lemma {:induction false} ClientOpsConcat(updates: seq<ThinUpdate>, more: seq<ThinUpdate>, since: nat)
    ensures SinceSweeps(updates + more, since) == SinceSweeps(more, SinceSweeps(updates, since))
    ensures ClientOps(updates + more, since)
            == ClientOps(updates, since) + ClientOps(more, SinceSweeps(updates, since))
    decreases |updates|
  {
    if updates == [] {
      assert updates + more == more;
    } else {
      var rest := updates[1..];
      assert (updates + more)[0] == updates[0] && (updates + more)[1..] == rest + more;
      ClientOpsConcat(rest, more, SinceSweep(since));
      Associative(HandleOps(updates[0], since), ClientOps(rest, SinceSweep(since)),
                  ClientOps(more, SinceSweeps(updates, since)));
    }
  }

  lemma RunTwo(s: State, op: Op, next: Op)
    ensures Run(s, [op, next]) == Step(Step(s, op), next)
  {
    assert [op, next][1..] == [next];
    RunOne(Step(s, op), next);
  }

  lemma HandleEffect(s: State, u: ThinUpdate, since: nat)
    requires Inv(s)
    ensures Inv(Run(s, HandleOps(u, since)))
    ensures Announced(Run(s, HandleOps(u, since)).tree) == Effect(Announced(s.tree), UpdateOp(u))
  {
    RunInv(s, HandleOps(u, since));
    RunOne(s, UpdateOp(u));
    StepInv(s, UpdateOp(u));
    StepAnnounced(s, UpdateOp(u));
    if since + 1 > UPDATES_PER_SWEEP {
      RunTwo(s, UpdateOp(u), SweepAll);
      StepAnnounced(Step(s, UpdateOp(u)), SweepAll);
    }
  }

  /** Sweeps in between are invisible: the updates act on the announced set in order. */
  lemma {:induction false} ClientEffects(s: State, updates: seq<ThinUpdate>, since: nat)
    requires Inv(s)
    ensures Inv(Run(s, ClientOps(updates, since)))
    ensures Announced(Run(s, ClientOps(updates, since)).tree) == Effects(Announced(s.tree), UpdateOps(updates))
    decreases |updates|
  {
    if updates != [] {
      var first, rest := HandleOps(updates[0], since), ClientOps(updates[1..], SinceSweep(since));
      HandleEffect(s, updates[0], since);
      RunConcat(s, first, rest);
      ClientEffects(Run(s, first), updates[1..], SinceSweep(since));
      assert UpdateOps(updates)[1..] == UpdateOps(updates[1..]);
    }
  }

  /** The counter goes round once in every 5001 updates, ... */
  lemma {:induction false} CounterCycles(updates: seq<ThinUpdate>, since: nat)
    requires since <= UPDATES_PER_SWEEP
    ensures SinceSweeps(updates, since) == (since + |updates|) % 5001
    decreases |updates|
  {
    if updates != [] {
      CounterCycles(updates[1..], SinceSweep(since));
      CountOn(since, |updates| - 1);
    }
  }

  /** ... and each time there is one sweep. */
  lemma {:induction false} SweepCadence(s: State, updates: seq<ThinUpdate>, since: nat)
    requires since <= UPDATES_PER_SWEEP
    ensures Run(s, ClientOps(updates, since)).sweeps == s.sweeps + (since + |updates|) / 5001
    decreases |updates|
  {
    if updates != [] {
      var next := Run(s, HandleOps(updates[0], since));
      assert Run(s, ClientOps(updates, since)) == Run(next, ClientOps(updates[1..], SinceSweep(since))) by {
        FirstUpdate(s, updates, since);
      }
      assert next.sweeps == s.sweeps + if since + 1 > UPDATES_PER_SWEEP then 1 else 0 by {
        HandleSweeps(s, updates[0], since);
      }
      SweepCadence(next, updates[1..], SinceSweep(since));
      CountOn(since, |updates| - 1);
    }
  }

  lemma CountOn(since: nat, n: nat)
    requires since <= UPDATES_PER_SWEEP
    ensures (since + n + 1) % 5001 == (SinceSweep(since) + n) % 5001
    ensures (since + n + 1) / 5001
            == (SinceSweep(since) + n) / 5001 + if since + 1 > UPDATES_PER_SWEEP then 1 else 0
  {
  }

  lemma HandleSweeps(s: State, u: ThinUpdate, since: nat)
    ensures Run(s, HandleOps(u, since)).sweeps == s.sweeps + if since + 1 > UPDATES_PER_SWEEP then 1 else 0
  {
    RunOne(s, UpdateOp(u));
    RunTwo(s, UpdateOp(u), SweepAll);
  }

  /** The update that triggers a sweep leaves no tombstone and no needless fork behind. */
  lemma SweepIsDue(s: State, u: ThinUpdate)
    requires Inv(s)
    ensures TrieShape.Compact(Run(s, HandleOps(u, UPDATES_PER_SWEEP)).tree)
    ensures SinceSweep(UPDATES_PER_SWEEP) == 0
  {
    RunTwo(s, UpdateOp(u), SweepAll);
    TrieShape.SweepCompacts(Step(s, UpdateOp(u)).tree);
  }

  /** The first update of several, with room for all of them. */
  lemma FirstUpdate(s: State, updates: seq<ThinUpdate>, since: nat)
    requires updates != []
    ensures var next := Run(s, HandleOps(updates[0], since));
            && Run(s, ClientOps(updates, since)) == Run(next, ClientOps(updates[1..], SinceSweep(since)))
            && next.pool.extent <= Run(s, ClientOps(updates, since)).pool.extent
  {
    var rest := ClientOps(updates[1..], SinceSweep(since));
    RunConcat(s, HandleOps(updates[0], since), rest);
    ExtentGrows(Run(s, HandleOps(updates[0], since)), rest);
  }
}
