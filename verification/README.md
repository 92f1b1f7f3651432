# slash0: verified model of the route trie, its replication, its GPU mirror and the Hilbert map

slash0 keeps a BGP route table as a path-compressed binary radix trie whose nodes live in an
index-addressed slab. The server replicates one trie per address family to browsers (a snapshot,
then a stream of updates); a browser mirrors its slab into a GPU buffer, driven only by the indices
that each mutation reports as dirty; a fragment shader maps every pixel through an order-64 Hilbert
curve to an address and walks the mirrored trie.

This project models those four pieces in Dafny and proves that they fit together: over every run of
updates, sweeps and frames, a pixel shows the longest announced prefix for the address it stands
for; over every interleaving of ingest, snapshots, sweeps and deliveries, a client that has lost no
message has the server's announced set once its stream is drained.

`dafny verify dfyconfig.toml` checks everything.

## How it is built

The in-place code is modelled by classes and methods that change sequences, arrays and fields step
by step (`Slab`, `RadixTrees`, `Mirror`, `RouteTables`, and the loops of `Prefixes` and `Hilbert`).
Each is proved to compute a function on values, and the theorems are about those functions.

| file | contents |
|---|---|
| `Words.dfy` | 32-bit words and their bits; shifts, masks, complements |
| `Prefixes.dfy` | addresses, prefixes and the word-wise prefix algorithms |
| `Trie.dfy` | the trie as a value that remembers its slab slots; insert, withdraw, sweep |
| `TrieSets.dfy` | what each mutation does to the announced set, the slots, the tallies, the shape invariant |
| `TrieStates.dfy`, `TrieGrowth.dfy` | the trie with its allocator; runs of operations; the accounting invariant; how far the slab grows |
| `TrieLookup.dfy`, `TrieShape.dfy`, `TrieDirty.dfy` | longest match; sweep and history independence; dirty reports |
| `TrieTimestamps.dfy`, `TrieTouches.dfy`, `TrieSeeds.dfy` | max-to-root timestamps; what they mean; timestamps after bulk seeding |
| `Slab.dfy`, `RadixTrees.dfy` | the slab and the trie on it, updated in place |
| `Messages.dfy`, `MessageContents.dfy` | RIS messages and what each side makes of one; what a message says, field by field |
| `ClientUpdates.dfy` | the client's operations and when it sweeps |
| `Replication.dfy`, `RouteTables.dfy` | the protocol as a state machine; the server's table in place |
| `HilbertCurve.dfy`, `Hilbert.dfy` | the curve of any order in arithmetic; the order-64 word code |
| `Shader.dfy`, `Mirror.dfy` | pixel to route; the GPU copy and the client session |

A prefix is abstracted to its key, the sequence of its first `len` bits. A `u32` is a number below
2^32 with the wrap-around written out. Slot 0 is the reserved slot and stands for "no node".

## Where the code and its comments differ

The model follows the code and proves when the two agree.

- Announcing or withdrawing an existing node overwrites its timestamp without looking at its
  children (`crates/core/src/tree.rs:249-255`, `crates/core/src/thin.rs:21-26`), so the order
  "parent at least child" survives exactly when the update is not older than anything below its
  target: `InsertOrdered`, `WithdrawOrdered`, with a breaking run in `StaleUpdateBreaksOrder`.
- `crates/core/src/tree.rs:478-479` promises a report for each parent whose pointer changed and none
  for freed slots. A sweep reports a slot twice exactly when both children of its node are redundant
  (`SweepReportsOnce`, with a run in `DuplicateReport`), and reports a slot that it frees exactly when
  a redundant node has a redundant child (`SweepReportsLive`, `FreedReport`). The second is what
  `crates/core/src/tree.rs:487-494` describes as wasted uploads.
- `upload_slab` does not clear the dirty queue (`crates/client/src/render.rs:67-70`), so indices
  queued on one connection are flushed on the next. `LeftoverQueue` gives the exact condition under
  which the new mirror is right, and the constructor of `SubscribedState` asks for it rather than for
  an empty queue; `QueueOutlivesSlab` shows that it can fail, in which case the flush would read past
  the end of the slab.
- Bulk seeding is not re-broadcast (`crates/server/src/route_table.rs:108-114`), and it runs after the
  ingest task has been spawned (`crates/server/src/main.rs:248-253`), so it can fall into the middle
  of a message: `SeedSettles` says when that matters, `SeedBringsBack` is a run in which it does. A
  seed after a subscription would matter as `LateSeed` says; this server cannot reach that state,
  because it seeds before any listener is bound (`crates/server/src/main.rs:62`, `91-112`).
- A lagging receiver loses whole messages silently (`crates/server/src/connection.rs:206`). `LagGap`
  says exactly when the gap of one loss closes, in the sense of
  `crates/server/src/route_table.rs:116-119`, and `Recovery` when a client with any history of losses
  agrees again; `LagLeavesGap` is a run in which the gap is open.

## Model

| member | source | states |
|---|---|---|
| `Prefixes.CommonPrefixLen` | crates/core/src/prefix.rs:105-126 | the word-wise loop over XOR and leading zeros returns the longest common prefix of the first `self_len` and `other_len` bits, for all lengths |
| `Prefixes.Masked` | crates/core/src/prefix.rs:150-163 | clears exactly the positions from `len` up and keeps every other bit |
| `Prefixes.FromAddress` | crates/core/src/prefix.rs:255-283 | yields the canonical prefix that holds the first `len` bits of the address |
| `Prefixes.SameKey` | crates/core/src/prefix.rs:130-131 | canonical prefixes compare equal word by word if and only if they have the same length and bits |
| `Prefixes.AddressKeyInjective` | crates/core/src/prefix.rs:61-80 | an address is determined by its 128 bits as `bit_at` reads them |
| `Prefixes.Covers` | crates/core/src/prefix.rs:318-334 | true if and only if the first `len` bits of the address are those of the prefix |
| `Slab.MergeAncestor` | crates/core/src/node.rs:28-35 | merging keeps the later of the two timestamps and changes nothing else |
| `Slab.VecSlab.constructor` | crates/core/src/slab.rs:43-52 | a new slab holds only the reserved slot and has an empty free list |
| `Slab.VecSlab.MappedFrom` | crates/core/src/slab.rs:73-83 | every entry, freed ones included, is mapped in place, and the free list is copied, so every index keeps its meaning |
| `Slab.VecSlab.CopyOf` | crates/core/src/slab.rs:30-36 | a clone has the same entries and free list |
| `Slab.VecSlab.Alloc` | crates/core/src/slab.rs:117-127 | takes the slot freed last and leaves the others on the free list as they were, else appends a default entry, and fails exactly when neither is possible; no existing entry changes |
| `Slab.VecSlab.Free` | crates/core/src/slab.rs:129-136 | parks a slot that is not free already on top of the free list |
| `Slab.FreeThenAlloc` | crates/core/src/slab.rs:117-136 | freeing a slot and allocating again yields that slot and restores the free list |
| `TrieStates.TakesLastFreed` | crates/core/src/slab.rs:117-127 | the allocator is a stack: of `more` and then `x`, it hands out `x` and keeps `more`, and with nothing freed it hands out the slot past the end |
| `TrieSets.InsertWellFormed` | crates/core/src/tree.rs:235-351 | insert keeps every child strictly longer than its parent and on the side its next bit names |
| `TrieSets.InsertAnnounced` | crates/core/src/tree.rs:197-232 | insert adds exactly its prefix to the announced set |
| `TrieSets.InsertSlots` | crates/core/src/tree.rs:235-351 | insert keeps the nodes' slots distinct, keeps all of them and adds exactly the freshly allocated ones |
| `TrieSets.InsertCount` | crates/core/src/tree.rs:257-261 | the number of announced nodes grows by one unless the prefix was announced already |
| `TrieSets.WithdrawFinds` | crates/core/src/tree.rs:353-366 | withdraw finds a target if and only if the prefix is announced; otherwise the trie and the report are untouched |
| `TrieSets.WithdrawWellFormed` | crates/core/src/tree.rs:382-437 | withdraw keeps the shape invariant, the root node and its prefix |
| `TrieSets.WithdrawAnnounced` | crates/core/src/tree.rs:353-380 | withdraw removes exactly its prefix from the announced set |
| `TrieSets.WithdrawSlots` | crates/core/src/tree.rs:358-361 | withdraw frees and moves no slot |
| `TrieSets.WithdrawCount` | crates/core/src/tree.rs:395-405 | the number of announced nodes drops by one exactly when the prefix was announced, so the tally cannot underflow |
| `TrieSets.SweepWellFormed` | crates/core/src/tree.rs:496-531 | splicing nodes out keeps the shape invariant |
| `TrieSets.SweepAnnounced` | crates/core/src/tree.rs:471-476 | a sweep keeps the announced set and its tally |
| `TrieSets.SweepSlots` | crates/core/src/tree.rs:496-531 | a sweep splits the slots in use into those still reachable and those freed, and loses none |
| `TrieSets.SweepEmpty` | crates/core/src/tree.rs:522-525 | a sweep leaves nothing of a subtree if and only if nothing in it is announced |
| `TrieSets.CollapsesIfRedundant` | crates/core/src/tree.rs:471-476 | a sweep frees a node if and only if it is unannounced and has a side without announced prefixes |
| `TrieSets.FreedOnce` | crates/core/src/slab.rs:129-136 | a sweep frees no slot twice |
| `TrieStates.InsertAccounted` | crates/core/src/tree.rs:439-464 | allocation never hands out the reserved slot or one in use, and the accounting survives an insert |
| `TrieStates.SweepAccounted` | crates/core/src/tree.rs:517-530 | returning the spliced nodes to the free list keeps it free of duplicates and disjoint from the nodes in use |
| `TrieStates.StepInv` | crates/core/src/tree.rs:212-546 | every mutation keeps the invariant: allocated slots are exactly the reachable nodes plus the free list, no slot is used twice, the tally is the number of announced nodes |
| `TrieStates.RunInv` | crates/core/src/tree.rs:212-546 | so does every run of mutations |
| `TrieStates.Tallies` | crates/core/src/tree.rs:103-118 | `node_count` is the number of reachable nodes, `announced_count` the size of the announced set and never negative |
| `TrieGrowth.StepExtent` | crates/core/src/slab.rs:117-127 | one mutation lengthens the backing vector only as far as the nodes it leaves in use require |
| `TrieGrowth.StepFits` | crates/core/src/tree.rs:211 | an insert finds all the slots it needs if and only if the vector stays within the capacity afterwards |
| `TrieGrowth.HighWater` | crates/core/src/slab.rs:104-127 | over every run the vector's length is the most nodes ever in use at once, plus the reserved slot |
| `TrieStates.StepAnnounced` | crates/core/src/tree.rs:197-211 | one mutation acts on the announced set as add, remove or nothing |
| `TrieStates.RunAnnounced` | crates/core/src/tree.rs:197-211 | after any run the announced set is what adding and removing the prefixes in order leaves |
| `TrieLookup.BestIsDeepest` | crates/core/src/tree.rs:159-190 | the descent returns an eligible node that covers the address, and no eligible covering node of the trie is deeper |
| `TrieLookup.LookupIsLongestMatch` | crates/core/src/tree.rs:127-157 | lookup returns the longest announced prefix that covers the address, and nothing if and only if none covers it (longest-match rule, section 5.1 of RFC 4632) |
| `TrieLookup.LookupDependsOnAnnounced` | crates/core/src/tree.rs:127-132 | two tries with the same announced set give every address the same prefix |
| `TrieLookup.RunLookup` | crates/core/src/tree.rs:127-157 | in every reachable state lookup is longest match on the prefixes announced and not withdrawn since |
| `TrieLookup.LimitedLookupDeepens` | crates/core/src/tree.rs:159-190 | lowering `count_all_below` can only deepen the answer, and the old answer covers the new one |
| `TrieLookup.LimitedLookupIsLookup` | crates/core/src/tree.rs:159-190 | above 128 the limited lookup is plain lookup |
| `TrieLookup.SweepKeepsLookup` | crates/core/src/tree.rs:466-476 | a sweep moves no lookup answer to another slot, prefix or timestamp |
| `TrieLookup.HeightBound` | crates/core/src/tree.rs:138-154 | a descent visits at most 129 nodes, fewer by the bits already fixed |
| `TrieShape.SweepCompacts` | crates/core/src/tree.rs:471-476 | after one pass every unannounced reachable node has two children |
| `TrieShape.SweepOfCompact` | crates/core/src/tree.rs:471-479 | a second sweep changes no node, frees no slot and reports nothing |
| `TrieShape.CompactSize` | crates/core/src/tree.rs:471-476 | a swept trie has at most `2 * announced - 1` nodes |
| `TrieShape.SweepLeavesCompact` | crates/core/src/tree.rs:466-484 | after a sweep of any reachable state: same announced set, forks only, an empty root exactly when nothing is announced, `node_count` bounded by the tally, and sweeping again is idle |
| `TrieShape.SameAnnouncedSameShape` | crates/core/src/tree.rs:466-531 | two swept tries with the same announced set have the same prefixes, flags and structure |
| `TrieShape.HistoryIndependence` | crates/core/src/tree.rs:212-531 | any two histories of insert, withdraw and sweep with the same resulting announced set sweep to the same shape |
| `TrieTimestamps.OrderedRootIsLatest` | crates/core/src/node.rs:28-35 | when each parent is at least its children, a node's timestamp is the latest one stored in its subtree |
| `TrieTimestamps.InsertEarlyStop` | crates/core/src/tree.rs:56-58 | insert with early stop gives the same trie as merging `ts` into every ancestor, and says correctly whether the root advanced |
| `TrieTimestamps.WithdrawEarlyStop` | crates/core/src/tree.rs:426-434 | the same for withdraw |
| `TrieTimestamps.InsertOrdered` | crates/core/src/tree.rs:249-308 | insert keeps the order if and only if `ts` is at least every timestamp below an existing node for the prefix |
| `TrieTimestamps.WithdrawOrdered` | crates/core/src/tree.rs:395-434 | the same for withdraw |
| `TrieTimestamps.SweepOrdered` | crates/core/src/tree.rs:496-531 | a sweep keeps the order and raises no timestamp |
| `TrieTimestamps.RunOrdered` | crates/core/src/tree.rs:24-26 | over every run with non-decreasing timestamps each parent stays at least its children |
| `TrieTimestamps.StaleUpdateBreaksOrder` | crates/core/src/tree.rs:249-255 | a concrete run with a late update whose parent ends up older than its child |
| `TrieTouches.InsertStamps` | crates/core/src/tree.rs:202-204 | a chronological insert stamps exactly the nodes at or above its prefix, and every other node has the timestamp it had |
| `TrieTouches.WithdrawStamps` | crates/core/src/tree.rs:356-358 | the same for a withdraw that finds its target |
| `TrieTouches.RunStamped` | crates/core/src/tree.rs:24-26 | over every chronological run each reachable node carries the time of the last effective update at or below its prefix, whatever has been swept in between |
| `TrieTouches.ReachableStamped` | crates/core/src/tree.rs:24-26 | the same for every chronological run from the empty trie |
| `TrieSeeds.AnnouncedNodeLatest` | crates/core/src/tree.rs:249-350 | after an announcement its node carries the most recent timestamp at or below it if and only if the node is new or was not more recent |
| `TrieSeeds.NodeIsLatest` | crates/core/src/tree.rs:24-26 | in an ordered trie every node carries the most recent timestamp at or below its prefix |
| `TrieSeeds.FreshTimestamps` | crates/server/src/route_table.rs:108-114 | after announcements none of which finds its own node more recent, every node carries the maximum of what was and what was announced at or below it, in any order |
| `TrieSeeds.EachAnnounced` | crates/server/src/route_table.rs:108-114 | in any order, each of several announced prefixes has an announced node at least as recent as its announcement |
| `TrieSeeds.OrderMatters` | crates/server/src/route_table.rs:110-113 | two orders of the same three routes that leave different timestamps |
| `TrieDirty.InsertExact` | crates/core/src/tree.rs:206-209 | insert reports every slot that changed or became reachable, each once, and apart from the target no other |
| `TrieDirty.InsertTarget` | crates/core/src/tree.rs:197-211 | the target holds the prefix, announced, in its old slot if there was one; it is unchanged only when the prefix was announced at that timestamp already |
| `TrieDirty.WithdrawExact` | crates/core/src/tree.rs:363-366 | a successful withdraw reports exactly the slots that changed, each once |
| `TrieDirty.SweepExact` | crates/core/src/tree.rs:478-479 | of the slots that stay reachable a sweep reports exactly those that changed |
| `TrieDirty.SweepReportsOnce` | crates/core/src/tree.rs:478-479 | a sweep's report is free of duplicates if and only if no node has two redundant children (unannounced, with a side that announces nothing) |
| `TrieDirty.DuplicateReport` | crates/core/src/tree.rs:533-546 | a run of five operations after which a sweep reports slot 1 twice and frees slots 2 and 3 in that order |
| `TrieDirty.SweepReportsLive` | crates/core/src/tree.rs:486-494 | a sweep reports no slot it frees if and only if no redundant node has a redundant child |
| `TrieDirty.FreedReport` | crates/core/src/tree.rs:486-494 | a run of five operations after which a sweep reports slot 2 and frees it |
| `TrieDirty.StepChanges` | crates/core/src/tree.rs:19-22 | in every reachable state a mutation reports all that a mirror of the slab needs |
| `RadixTrees.RadixTree.constructor` | crates/core/src/tree.rs:79-94 | an empty trie on a fresh slab |
| `RadixTrees.RadixTree.CopyOf` | crates/core/src/tree.rs:28-30 | a clone has the same nodes in the same slots on a slab of its own |
| `RadixTrees.RadixTree.FromThickTree` | crates/core/src/tree.rs:561-583 | the thin tree has the same nodes in the same slots, on a slab of its own, with the sweep count reset |
| `RadixTrees.RadixTree.NodeCount` | crates/core/src/tree.rs:103-110 | the slab's live count is the number of nodes reachable from the root |
| `RadixTrees.RadixTree.AnnouncedTally` | crates/core/src/tree.rs:112-118 | the incrementally kept tally is the size of the announced set |
| `RadixTrees.RadixTree.Insert` | crates/core/src/tree.rs:212-232 | the in-place insert computes the specified trie, allocator and tally; the prefix is announced in its old slot, else in the slot freed last, else in a new one; every rewritten slot is reported once, and no other but the target |
| `RadixTrees.RadixTree.InsertRecursive` | crates/core/src/tree.rs:235-270 | one frame leaves the specified subtree in the slab, nothing else of it touched, and counts a prefix only if it was not announced |
| `RadixTrees.RadixTree.InsertBelow` | crates/core/src/tree.rs:274-295 | descend, rewire if the child was replaced, and merge the timestamp unless a lower level stopped it |
| `RadixTrees.RadixTree.InsertLeaf` | crates/core/src/tree.rs:296-309 | graft a leaf on the empty side |
| `RadixTrees.RadixTree.InsertAbove` | crates/core/src/tree.rs:313-328 | splice an announced node above a longer prefix |
| `RadixTrees.RadixTree.InsertBeside` | crates/core/src/tree.rs:330-350 | join two diverging prefixes under a new unannounced node |
| `RadixTrees.RadixTree.AllocAnnouncedNode` | crates/core/src/tree.rs:439-451 | a fresh announced leaf in the next slot, counted |
| `RadixTrees.RadixTree.AllocSplitNode` | crates/core/src/tree.rs:453-464 | a fresh unannounced node in the next slot, not counted |
| `RadixTrees.RadixTree.Withdraw` | crates/core/src/tree.rs:367-380 | the in-place withdraw computes the specified trie and tally, returns whether the prefix was announced, reports exactly the rewritten slots, and changes and reports nothing when it returns false |
| `RadixTrees.RadixTree.WithdrawRecursive` | crates/core/src/tree.rs:382-437 | one frame of it |
| `RadixTrees.RadixTree.SweepTombstones` | crates/core/src/tree.rs:466-484 | the in-place sweep computes the specified trie and free list; of the reachable slots it reports exactly the rewritten ones |
| `RadixTrees.RadixTree.SweepRecursive` | crates/core/src/tree.rs:496-511 | one post-order frame: the subtree is swept, the parent's pointer or the root follows, freed slots join the free list in order |
| `RadixTrees.RadixTree.SweepNode` | crates/core/src/tree.rs:513-530 | the decision for one node once both branches are swept |
| `RadixTrees.RadixTree.SetParentSlot` | crates/core/src/tree.rs:533-546 | rewires the parent and reports it, or moves the root and reports nothing |
| `RadixTrees.RadixTree.Lookup` | crates/core/src/tree.rs:133-157 | returns the slot of the longest announced prefix that covers the address, 0 if and only if none does |
| `RadixTrees.RadixTree.LimitedLookup` | crates/core/src/tree.rs:166-190 | returns the deepest covering node that is announced or at least `count_all_below` bits long |
| `RadixTrees.Walk` | crates/core/src/tree.rs:133-190 | the descent loop over any slab contents that represent a trie, terminating on it |
| `RadixTrees.LookupIn` | crates/shader/src/slab.rs:18-21 | the same lookup over a read-only buffer; the slot it returns holds the timestamp of the matched prefix's node |
| `Messages.ThinUpdatesAreServerOps` | crates/ris_client/src/messages.rs:210-235 | the updates a client is sent for a message are exactly the server's operations on that family, in order |
| `MessageContents.AnnouncementSent` | crates/ris_client/src/messages.rs:215-234 | every announced prefix of the family, in whatever group, becomes an ANNOUNCE with its parsed prefix and the message's timestamp, at the position given by those before it, for client and server alike |
| `MessageContents.WithdrawalSent` | crates/ris_client/src/messages.rs:222-234 | every withdrawn prefix of the family becomes a WITHDRAW likewise, after all announcements |
| `MessageContents.NothingElseSent` | crates/ris_client/src/messages.rs:228-234 | every update sent stands for one prefix of the message |
| `MessageContents.SentLength` | crates/ris_client/src/messages.rs:228-234 | as many updates are sent as the message has prefixes that parse to the family |
| `MessageContents.MessageEffect` | crates/server/src/route_table.rs:208-233 | a message adds every prefix of the family that any of its groups announces and then removes every one that it withdraws |
| `Replication.BoundaryReplay` | crates/server/src/route_table.rs:198-201 | applying any initial part of a message and then all of it leaves the announced set of applying it once |
| `Replication.NextKeeps` | crates/server/src/route_table.rs:196-273 | every event, a seed at a harmless moment included, keeps the server settled and every client that has missed nothing headed where the server is |
| `Replication.RunKeeps` | crates/server/src/route_table.rs:196-273 | so does every interleaving of ingest steps, sweeps, seeds, subscriptions, deliveries, lags and updates |
| `Replication.Convergence` | crates/server/src/route_table.rs:255-273 | over every run whose seeds are harmless, a client that has missed nothing and has nothing on its way has exactly the server's announced set for its family, wherever its snapshot landed |
| `Replication.ConvergedTriesAgree` | crates/server/src/connection.rs:173-189 | such a client answers every lookup as the server does, and sweeps to a trie of the same shape |
| `Replication.SubscribeOnCourse` | crates/server/src/route_table.rs:264-272 | a snapshot taken in the middle of a message misses nothing, since the whole message follows it |
| `Replication.SeedSettles` | crates/server/src/main.rs:248-253 | seeding during a half-applied message leaves the replay of the whole message harmless if and only if it brings back nothing that the message has touched and does not touch again |
| `Replication.SeedKeepsServer` | crates/server/src/route_table.rs:108-114 | a seed keeps the server settled for later subscribers if and only if that condition holds of its routes |
| `Replication.SeedKeepsClient` | crates/server/src/route_table.rs:108-114 | a seed keeps a client on its course if and only if it is for the other family or all that it adds is about to be announced or withdrawn |
| `Replication.SeedBringsBack` | crates/server/src/main.rs:248-253 | a run in which a seed at a barred moment makes a drained client differ from the server |
| `Replication.LateSeed` | crates/server/src/route_table.rs:108-114 | a seed after a subscription leaves a drained client equal to the server if and only if it adds nothing |
| `Replication.Recovery` | crates/server/src/route_table.rs:116-119 | from any reachable state, whatever a client has missed, it agrees with the server once it is drained, without further lag, if and only if every prefix on which the two were headed differently has been announced or withdrawn by a message published since |
| `Replication.LagGap` | crates/server/src/connection.rs:206 | a client that misses any number of messages agrees with the server once drained if and only if every prefix on which they had an effect is announced or withdrawn by a later message |
| `Replication.ReachableOk` | crates/server/src/route_table.rs:196-273 | every state that a run with harmless seeds reaches meets the invariant from which these start |
| `Replication.LostStretch` | crates/server/src/route_table.rs:116-119 | losing a stretch of operations leaves no gap if and only if every prefix on which it had an effect is touched again |
| `Replication.LagLeavesGap` | crates/server/src/connection.rs:206 | a run in which a client lags by one message and, drained, lacks a route that the server has |
| `RouteTables.RouteTable.ApplyPrefix` | crates/server/src/route_table.rs:235-253 | parses a prefix and applies it to the trie of its family only; an unparseable one changes nothing |
| `RouteTables.RouteTable.constructor` | crates/server/src/route_table.rs:48-55 | a new table has two empty tries on slabs of the largest capacity |
| `RouteTables.RouteTable.ApplyMessage` | crates/server/src/route_table.rs:208-233 | each trie undergoes its family's operations of the message; its announced set is then the old one, plus every prefix of the family that any group of the message announces, minus every one that it withdraws |
| `RouteTables.RouteTable.Ingest` | crates/server/src/route_table.rs:196-206 | carries out the state machine's run of one message: begin, one step per prefix, publish |
| `RouteTables.RouteTable.Subscribe` | crates/server/src/route_table.rs:255-273 | an independent copy of the trie together with the position in the stream from which it continues |
| `RouteTables.RouteTable.Sweep` | crates/server/src/route_table.rs:177-194 | sweeps both tries |
| `RouteTables.RouteTable.BulkInsertRoutes` | crates/server/src/route_table.rs:108-114 | each route of the map is announced exactly once, with its timestamp, in whatever order the map yields; exactly these prefixes are added, each with a node at least as recent as the route, and if no announcement finds its own node more recent, every node carries the maximum of the old and seeded timestamps at or below it |
| `RouteTables.IngestRuns` | crates/server/src/route_table.rs:202-206 | the state machine's uninterrupted run of one message ends in the message's operations on both tries and one published message |
| `HilbertCurve.Ends` | crates/core/src/hilbert.rs:266-269 | a curve of any order runs from the origin to the far end of the x axis |
| `HilbertCurve.Adjacent` | crates/core/src/hilbert.rs:331-350 | on a curve of any order consecutive indices are at Manhattan distance 1 |
| `HilbertCurve.Inverse` | crates/core/src/hilbert.rs:219-258 | `xy2d` undoes `d2xy` for every order and index |
| `HilbertCurve.RightInverse` | crates/core/src/hilbert.rs:219-258 | `d2xy` undoes `xy2d` for every order and point |
| `HilbertCurve.FullReflectionIsLocal` | crates/core/src/hilbert.rs:129-136 | complementing the full width on the way down gives the same index as reflecting within the sub-square |
| `HilbertCurve.ZoomOut` | crates/core/src/hilbert.rs:64-92 | dropping `2j` index bits and `j` bits of both axes gives the curve of `j` levels fewer |
| `HilbertCurve.Locality` | crates/core/src/hilbert.rs:110-141 | the top `2n` index bits and the top `n` bits of both axes determine each other |
| `HilbertCurve.OddLocality` | crates/core/src/hilbert.rs:110-141 | an odd number of top index bits selects exactly two cells |
| `HilbertCurve.TwinCells` | crates/core/src/hilbert.rs:110-141 | those two cells are neighbours within one aligned square |
| `Hilbert.IpToPoint` | crates/core/src/hilbert.rs:64-92 | the word code computes the arithmetic `d2xy` of order 64 for every address |
| `Hilbert.PointToIp` | crates/core/src/hilbert.rs:110-141 | the word code computes the arithmetic `xy2d` of order 64 for every point |
| `Hilbert.TurnLow` | crates/core/src/hilbert.rs:71-81 | the conditional complement of the low `level` bits and the swap are the reflection of the sub-square, which both axes stay inside |
| `Hilbert.TurnFull` | crates/core/src/hilbert.rs:128-137 | the conditional complement of all bits and the swap leave the index of the lower levels |
| `Hilbert.SetQuadrant` | crates/core/src/hilbert.rs:120-126 | the two conditional bit-sets add the start of the quadrant |
| `Hilbert.AxisSet` | crates/core/src/hilbert.rs:160-163 | setting a bit above an axis adds its weight |
| `Hilbert.IndexSet` | crates/core/src/hilbert.rs:149-152 | setting a clear index bit adds its weight |
| `Hilbert.AxisComplementLow` | crates/core/src/hilbert.rs:165-173 | complementing the low `k` bits of an axis below 2^k is `2^k - 1 - x` |
| `Hilbert.AddressRoundTrip` | crates/core/src/hilbert.rs:278-285 | `point_to_ip(ip_to_point(ip)) == ip` for every address |
| `Hilbert.PointRoundTrip` | crates/core/src/hilbert.rs:287-310 | `ip_to_point(point_to_ip(p)) == p` for every point |
| `Hilbert.NextAddressIsAdjacent` | crates/core/src/hilbert.rs:331-350 | consecutive addresses are neighbours in the plane |
| `Hilbert.EvenPrefixIsSquare` | crates/core/src/hilbert.rs:110-141 | two addresses share a prefix of even length if and only if their points share the aligned square of that size |
| `Hilbert.OddPrefixIsTwoCells` | crates/core/src/hilbert.rs:110-141 | a prefix of odd length is exactly two neighbouring cells of one aligned square |
| `Shader.PixelAxisCell` | crates/shader/src/lib.rs:41-45 | the top 24 bits of the axis computed for a pixel are the pixel coordinate |
| `Shader.PixelAxisValue` | crates/shader/src/lib.rs:41-50 | the axis computed for a pixel coordinate below 2^24 is the coordinate times 2^40 |
| `Shader.CellIsPrefix` | crates/shader/src/lib.rs:41-53 | the addresses of a 24-bit cell are exactly those that share the first 48 bits with its corner |
| `Shader.CornerAnswers` | crates/shader/src/lib.rs:41-53 | with no prefix longer than 48 bits, the answer at the corner of a 24-bit cell is right for every address in the cell |
| `Shader.FsMain` | crates/shader/src/lib.rs:34-60 | on a buffer that represents a trie, the shader finds the longest match and its node's timestamp for the corner of the pixel's cell and, with prefixes up to 48 bits, for the whole cell |
| `Shader.AnswerTellsLastTouch` | crates/core/src/tree.rs:24-26 | on a trie whose updates came in timestamp order, that timestamp is the time of the last effective update at or below the matched prefix |
| `Mirror.RenderState.UploadSlab` | crates/client/src/render.rs:64-70 | copies the slab index for index and leaves the queue alone |
| `Mirror.RenderState.Update` | crates/client/src/render.rs:72-76 | queues exactly the reported slots, without duplicates |
| `Mirror.RenderState.FlushDirties` | crates/client/src/render.rs:78-85 | every queued slot takes the slab's contents, every other one stays, the queue is empty |
| `Mirror.RenderState.Render` | crates/client/src/render.rs:87-98 | flushes, then publishes the root |
| `Mirror.MirrorKept` | crates/client/src/lib.rs:271-300 | queueing what a mutation reports keeps every reachable slot either equal in the buffer or queued, whatever indices were recycled |
| `Mirror.MirrorRepresents` | crates/client/src/render.rs:78-85 | a buffer that agrees on the reachable slots represents the same trie |
| `Mirror.LeftoverQueue` | crates/client/src/render.rs:64-76 | indices left in the queue are harmless to a freshly uploaded slab if and only if it has those slots |
| `Mirror.QueueOutlivesSlab` | crates/client/src/render.rs:67-70 | a slot reported on one connection need not be a slot of the snapshot of the next |
| `Mirror.SubscribedState.constructor` | crates/client/src/lib.rs:156-193 | installing a snapshot that fits the buffer establishes the mirror invariant |
| `Mirror.SubscribedState.HandleUpdate` | crates/client/src/lib.rs:271-300 | applies the update, queues what is reported and keeps the mirror invariant; on the update after 5000 without a sweep, and on no other, it sweeps: no tombstone or needless fork is left and the counter is back at 0 |
| `Mirror.SubscribedState.Frame` | crates/client/src/lib.rs:261-266 | after a frame the buffer represents the client's trie and the shader's root is its root |
| `Mirror.SubscribedState.HandleAll` | crates/client/src/lib.rs:242-249 | a frame of updates runs their operations, sweeping once for every 5001 updates, and acts on the announced set as the updates in order |
| `Mirror.SubscribedState.Session` | crates/client/src/lib.rs:205-269 | over every sequence of messages and frames in which the nodes in use at any one time fit the slab and the buffer, each frame's pixel shows the longest match, with its timestamp, among the routes announced by the updates so far |
| `Mirror.EveryFrameShown` | crates/client/src/lib.rs:261-266 | a session shows one picture for each animation frame |
| `Mirror.FrameShowsUpdates` | crates/client/src/lib.rs:229-268 | the picture of a frame comes after exactly the updates of the messages before it, in order |
| `Mirror.FrameShowsRoutes` | crates/client/src/lib.rs:229-268 | and shows the routes that those updates announce and have not withdrawn |
| `Mirror.SessionIsItsUpdates` | crates/client/src/lib.rs:229-268 | a session's operations are those of all its updates, however they are split into messages and interleaved with frames |
| `Mirror.FramesAnnounce` | crates/client/src/lib.rs:271-300 | at each frame the announced set is what the updates so far make it, sweeps or not |
| `Mirror.FrameTimestamps` | crates/client/src/lib.rs:271-300 | when updates arrive in timestamp order, at each frame every node tells when something at or below it was last updated |
| `ClientUpdates.ClientEffects` | crates/client/src/lib.rs:271-300 | updates with the sweeps they trigger act on the announced set as the updates alone |
| `ClientUpdates.CounterCycles` | crates/client/src/lib.rs:293-297 | the counter is the number of updates modulo 5001 |
| `ClientUpdates.SweepCadence` | crates/client/src/lib.rs:293-297 | the number of sweeps is the number of updates divided by 5001 |
| `ClientUpdates.SweepIsDue` | crates/client/src/lib.rs:293-297 | the update that triggers a sweep leaves only announced nodes and forks |

## Left out

- WebSocket, HTTP, TLS, metrics, configuration, the RIS Live connection and file replay: input and output over libraries.
- The postcard and JSON encodings of messages: values are delivered in order; batching of a stream into chunks changes no order and is not modelled.
- CIDR and address parsing: an arbitrary partial function from strings, the same on server and client.
- The GPU byte layout, surfaces and pipelines; the client's state loops other than synchronizing and subscribed; the rejection of a snapshot of the other family.
- UV scaling and colours: floating point; the shader is modelled from the integer pixel coordinate to the matched prefix and its timestamp.
- Timestamps are natural numbers instead of `f64` seconds and pairs of words; `f64` conversion is not part of this model.
- Payloads other than the timestamp: `ThinData` and `ThickData` have none. The client's incoming payload, which `apply_announce` ignores, is not passed.
- Reading MRT files into the seed maps (`add_routes_from` before the two bulk inserts): an external parser; seeding starts from the maps.
- `record_metrics`, slab iteration and byte-size accounting, `From<u128>` and `From<u32>`: not part of this model; nothing above depends on them.
- `RadixTrees.RadixTree.Insert`: a full slab panics in the original; here room for the needed slots is a precondition, and `TrieGrowth.StepFits` and `HighWater` say what it amounts to.
- `Mirror.SubscribedState.HandleUpdate`: a slab that outgrows its capacity or the buffer is not modelled; the nodes in use have to fit both.
- `RouteTables.RouteTable.BulkInsertRoutes`: room for two slots per route is required, whatever the order turns out to need.
- `TrieStates.Tallies`: the width of the two `u32` counters is not modelled; the announced tally is bounded by the number of slots, and the sweep counter counts without wrapping.
- `RouteTables.RouteTable.Ingest`: locks are not objects of the model; a critical section is one step of the state machine, and the class carries out the uninterrupted order.
