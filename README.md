# Tunable-consistency replicated key-value store, modelled in Dafny

This project models the core of a replicated key-value store that trades
consistency against latency through a write quorum `w` and a read quorum `r`,
in two topologies:

- **Versioned store** (`store.dfy`, module `Store`): each node's `KVStore`, a
  map from key to `KVPair{value, version}` plus a `versionCounter`. `Set`
  without a version assigns `counter + 1`; `Set` with an explicit version
  (replication) stores exactly that version and raises the counter to the
  larger of the two, without looking at the key's current version. `Get` is
  a lookup. The leader-follower and leaderless packages carry copies that are
  identical up to two comments (leader-follower/kv_store.go:12-64 and
  leaderless/kv_store.go:12-66), so one class models both.
- **Write-quorum counting** (`quorum.dfy`, module `Quorum`): how many
  replication calls succeeded, the replica states after the first `n` replicas
  were tried, and how many replicas hold a pair.
- **Leader-follower** (`leader_follower.dfy`, module `LeaderFollower`): the
  `LeaderNode` writes locally (counted as one ack), returns at once when
  `w == 1`, and otherwise replicates to the followers in list order, stopping
  right after the success that brings the count to `w`; it never rolls back.
  Its `Read` is a local read when `r == 1`; otherwise the leader counts as one
  node read whether or not it has the key, followers are read in order until
  `nodesRead >= r`, only a follower's 200 answer counts, and the collected pair
  with the greatest version wins, the earliest among equal versions.
  `FollowerNode.Replicate` always answers 201.
- **Leaderless** (`leaderless.dfy`, module `Leaderless`): the
  `LeaderlessNode` that receives a write coordinates it: local write, then
  every peer is tried, with no early exit and no `w == 1` shortcut, and the
  count is compared with `w`. `Read` ignores `r` and is exactly `LocalRead`.

The network is an input. Each `Write` and `Read` takes `reachable`, one flag per
follower or peer in list order. A replication call that gets through is
answered by the receiving node's `Replicate`, which applies an explicit-version
`Set` there and answers 201. A call that does not get through changes nothing.
A leader's read of a follower that gets through answers from the follower's
store, with 200 or 404. Each method is proved against value-level
specification functions (`AfterSet`, `Replicated`, `Contacted`,
`WriteStatus`, `Gather`, `ReadOutcome`), and the properties are proved about
those as lemmas.

Where the code departs from the usual quorum semantics, the model follows the code:

- A quorum read with `r >= 2` never answers 404. The leader always counts as
  one node, and each counted follower adds a pair, so enough nodes read means
  at least one pair. A key absent everywhere therefore gives 500, not 404
  (`LeaderFollower.ReadQuorumStatus`).
- Only a follower's 200 answer counts toward `r`, and the leader counts
  unconditionally. Followers are queried one after another, not in parallel.
- `Set` does not reject an empty key; only `Write` does, with 400. An explicit
  version is stored as given, even when it is zero, negative or below the
  key's current version.
- With `w <= 0` the leader still contacts followers until the first
  successful replication. The early-exit test runs only after a success.

## Model

| member | source | states |
|---|---|---|
| `Store.KVStore.constructor` | leader-follower/kv_store.go:26-31 | a new store is empty with counter 0 and satisfies the store invariant |
| `Store.KVStore.Set` | leader-follower/kv_store.go:34-55 | returns the assigned version (counter + 1, or exactly the given version) and leaves the store in state `AfterSet` of the old one, keeping counter >= every stored version |
| `Store.KVStore.Get` | leader-follower/kv_store.go:58-64 | reports the key as present exactly when it is in the map, and then returns its stored pair |
| `Store.LocalReply` | leader-follower/kv_store.go:229-235 | a local read answers 200 with the stored pair exactly when the key is present, and otherwise answers (404, "", 0) |
| `Store.FreshSetAdvancesCounter` | leader-follower/kv_store.go:39-54 | Set without a version advances the counter by exactly one and stores the value under the new, positive counter value |
| `Store.ExplicitSetStoresVersion` | leader-follower/kv_store.go:43-52 | Set with version v stores exactly v, whatever the key held before, and the counter becomes max(old counter, v) |
| `Store.GetAfterSet` | leader-follower/kv_store.go:49-64 | after Set, Get of that key returns (value, assigned version) with found = true, and every other key reads as before |
| `Store.SetKeepsBounded` | leader-follower/kv_store.go:38-52 | Set never lowers the counter and keeps the counter >= every stored version |
| `Store.ReplayIsIdempotent` | leaderless/kv_store.go:156-161 | applying the same explicit-version replication twice leaves the same state as applying it once |
| `Store.RunKeepsBounded` | leader-follower/kv_store.go:26-55 | over any history of Set calls starting from a valid state (in particular a new store) the counter never decreases and stays >= every stored version |
| `Quorum.ReplicationReachesHolders` | leader-follower/kv_store.go:100-111 | after trying the first n replicas, at least as many replicas hold the written (value, version) as there were successful calls among them |
| `LeaderFollower.WriteStopsAtQuorum` | leader-follower/kv_store.go:94-112 | with w == 1 no follower is contacted; with w >= 2 no follower is contacted once the count reached w, and the loop ends before the list's end only after reaching w |
| `LeaderFollower.WriteQuorumIff` | leader-follower/kv_store.go:92-119 | Write answers 201 exactly when 1 + the number of reachable followers is >= w, and 500 otherwise |
| `LeaderFollower.WriteQuorumHolds` | leader-follower/kv_store.go:104-116 | on 201 the leader plus the followers holding (value, version) number at least w |
| `LeaderFollower.Answers` | leader-follower/kv_store.go:205-226 | built from each follower's own local reply: follower i contributes a pair exactly when the call gets through and the follower has the key, and the pair is then the one in its store; a 404 or a failed call contributes nothing |
| `LeaderFollower.NewestIndex` | leader-follower/kv_store.go:194-199 | picks a collected pair whose version is >= every collected version and strictly greater than the version of every earlier pair, so ties go to the earliest |
| `LeaderFollower.GatherCollectsFirstPairs` | leader-follower/kv_store.go:171-182 | before the quorum is reached, the read loop appends exactly the pairs of the first answers that carry one, in follower order, and no more than the r - nodesRead still missing |
| `LeaderFollower.GatherFacts` | leader-follower/kv_store.go:171-182 | the read loop keeps what was collected, adds one pair per node counted, stops counting at r (nodesRead = min(r, start + pairs found)) and collects only pairs that followers answered |
| `LeaderFollower.ReadQuorumStatus` | leader-follower/kv_store.go:155-192 | r == 1 is the local read; for r >= 2 the reply is 500 exactly when 1 + pairs found < r, and otherwise 200, never 404 |
| `LeaderFollower.ReadResolvesNewest` | leader-follower/kv_store.go:189-201 | a 200 quorum read returns a collected pair (the leader's or a follower's answer) whose version is >= the leader's own and >= every collected answer's; on a tie with the leader's version the leader's pair wins |
| `LeaderFollower.WriteKeepsDominated` | leader-follower/kv_store.go:91-111 | every Write, whatever its outcome, keeps every follower entry either strictly older than the leader's entry for that key or equal to it |
| `LeaderFollower.DominatedReadIsLeaders` | leader-follower/kv_store.go:163-201 | when followers only hold what the leader wrote, every 200 read, for any r and any reachability, returns the leader's own pair |
| `LeaderFollower.ReadAfterWrite` | leader-follower/kv_store.go:153-201 | when the followers hold only this leader's writes (`Dominated`), after Write commits (value, v) at the leader a read with r == 1 returns (200, value, v) and every 200 read returns (value, v), whatever the replication outcome |
| `LeaderFollower.FollowerNode.constructor` | leader-follower/kv_store.go:243-247 | a follower starts with a new, empty, valid store |
| `LeaderFollower.FollowerNode.Replicate` | leader-follower/kv_store.go:250-256 | always answers 201 and applies an explicit-version Set with the leader's version |
| `LeaderFollower.FollowerNode.LocalRead` | leader-follower/kv_store.go:259-268 | answers from the follower's own store: 200 with the pair, or 404 |
| `LeaderFollower.LeaderNode.constructor` | leader-follower/kv_store.go:75-82 | a leader starts with a new, empty store and keeps the given followers, w and r |
| `LeaderFollower.LeaderNode.Write` | leader-follower/kv_store.go:85-120 | empty key gives (400, 0) and nothing changes; otherwise the leader commits (value, counter + 1) and keeps it, the first `Contacted` followers that are reachable receive it and no other follower changes, the status is `WriteStatus`, and on 201 at least w nodes hold the pair |
| `LeaderFollower.LeaderNode.ReplicateToFollower` | leader-follower/kv_store.go:123-150 | succeeds exactly when the follower is reachable, and then only that follower's store changes, by the explicit-version Set |
| `LeaderFollower.LeaderNode.Read` | leader-follower/kv_store.go:153-202 | the reply equals `ReadOutcome` of the leader's store and the followers' answers, which the Read lemmas above characterise |
| `LeaderFollower.LeaderNode.Newest` | leader-follower/kv_store.go:194-199 | the scan over the collected pairs returns the pair at `NewestIndex`: one with the greatest version, the first such on a tie |
| `LeaderFollower.LeaderNode.LocalRead` | leader-follower/kv_store.go:229-235 | answers from the leader's store alone: 200 with the pair, or 404 |
| `Leaderless.MoreReachablePeersKeepQuorum` | leaderless/kv_store.go:99-113 | a write that reaches quorum still reaches it when more peers are reachable: a failed call turned into a success never turns 201 into 500 |
| `Leaderless.WriteQuorumHolds` | leaderless/kv_store.go:95-113 | on 201 the coordinator plus the peers holding (value, version) number at least w |
| `Leaderless.FullQuorumReachesEveryPeer` | leaderless/kv_store.go:98-113 | with w equal to the cluster size, a 201 means every peer was reached and now reads (200, value, version) locally |
| `Leaderless.ReadAfterWrite` | leaderless/kv_store.go:147-153 | after the coordinator commits a write under version v, its Read returns (200, value, v) whatever the replication outcome |
| `Leaderless.LeaderlessNode.constructor` | leaderless/kv_store.go:78-86 | a node starts with a new, empty store and keeps its id, peers, w and r |
| `Leaderless.LeaderlessNode.Write` | leaderless/kv_store.go:89-114 | empty key gives (400, 0) and nothing changes; otherwise the local commit of (value, counter + 1) is kept, every reachable peer receives it and no other peer changes, the status is `WriteStatus`, and on 201 at least w nodes hold the pair |
| `Leaderless.LeaderlessNode.ReplicateToPeer` | leaderless/kv_store.go:117-144 | succeeds exactly when the peer is reachable, and then only that peer's store changes, by the explicit-version Set |
| `Leaderless.LeaderlessNode.Read` | leaderless/kv_store.go:147-153 | ignores r and equals LocalRead exactly: 200 with the local pair, or 404 |
| `Leaderless.LeaderlessNode.Replicate` | leaderless/kv_store.go:156-162 | always answers 201 and applies an explicit-version Set with the coordinator's version |
| `Leaderless.LeaderlessNode.LocalRead` | leaderless/kv_store.go:165-171 | answers from the node's own store: 200 with the pair, or 404 |

## Left out

- HTTP servers (leader-follower/server.go, leaderless/server.go): routing and JSON encoding. This includes the role checks that answer 403 to a `/set` on a non-leader and to a `/replicate` on a non-follower.
- The HTTP and JSON side of `replicateToFollower`, `readFromFollower` and `replicateToPeer`: each call is reduced to its outcome, given by the `reachable` flag and the receiving node's own answer. JSON decoding errors are not modelled separately; they fall under an unreachable call.
- Keys that need URL escaping: `readFromFollower` pastes the raw key into the follower's URL (leader-follower/kv_store.go:206), so a key containing `?`, `#`, `%` or `/` would be looked up as a different key or not routed at all. The model assumes keys need no escaping and always looks up the same key.
- A leader restarted over followers that still hold entries: `LeaderFollower.ReadAfterWrite` and `LeaderFollower.DominatedReadIsLeaders` assume `Dominated`, which holds for a cluster started empty and is kept by every Write (`LeaderFollower.WriteKeepsDominated`). A restarted leader with counter 0 in front of a follower holding a higher version breaks it, and a quorum read can then return the follower's older value.
- The simulated delays (`time.Sleep`): timing only.
- `sync.RWMutex` and concurrency: every `Set` and `Get` is atomic, and requests do not interleave. Concurrent writers racing for versions are not modelled. Neither are two leaderless coordinators assigning colliding versions for one key.
- The Go `error` values: only the status codes and returned values are modelled.
- Go's 64-bit `int`: versions and the counter are unbounded integers, so wrap-around after 2^63 - 1 writes is not modelled.
- A follower or peer listed twice, or a leaderless node listing itself: `Valid()` requires every node to own a distinct store. A duplicated entry would be contacted twice and counted twice.
- Building a full leaderless cluster: a node's `peers` are fixed when it is constructed, so a cluster where every node lists every other cannot be built in the model. Each write is reasoned about from its one coordinator.
- leader-follower/s3_store.go: an object-store backend with a different version rule (old version + 1), and leader-follower/main.go and leaderless/main.go (environment parsing and start-up; leader-follower/main.go also calls constructors whose signatures differ from leader-follower/kv_store.go:75,243, and the model follows kv_store.go).
- load-tester/main.go, scripts/visualize_results.py and tests/*.go: benchmarking, plotting and HTTP integration tests. Two test assertions appear as the `ReadAfterWrite` lemmas: tests/leader_follower_consistency_test.go:38-47 and tests/leaderless_consistency_test.go:137-153.
