/**
 * The leaderless topology: every node is symmetric, and the node that
 * receives a write coordinates it, replicating to all of its peers.
 *
 * As in the leader-follower model, the network is an input:
 * `reachable[i]` says whether the replication call to peer i gets through.
 * A call that gets through is answered by the peer's Replicate (always 201);
 * one that does not changes nothing.
 */
module Leaderless {
  import opened Store
  import opened Quorum

  /** The status Write returns for a non-empty key: 201 when the coordinator
      plus the peers that acknowledged reach w, 500 otherwise. */
  function WriteStatus(w: int, reachable: seq<bool>): (status: int)
    ensures status == 201 <==> w <= 1 + Successes(reachable)
    ensures status == 201 || status == 500
  {
    if 1 + Successes(reachable) >= w then 201 else 500
  }

  /** A write that reaches its quorum still reaches it when more peers are
      reachable: making a failed call succeed never turns 201 into 500. */
  lemma MoreReachablePeersKeepQuorum(w: int, reachable: seq<bool>, more: seq<bool>)
    requires |more| == |reachable|
    requires forall i :: 0 <= i < |reachable| && reachable[i] ==> more[i]
    requires WriteStatus(w, reachable) == 201
    ensures WriteStatus(w, more) == 201
  {
    SuccessesPointwise(reachable, more);
  }

  /** On 201 at least w nodes hold the written pair: the coordinator and the
      peers that acknowledged. */
  lemma WriteQuorumHolds(w: int, reachable: seq<bool>, before: seq<State>,
                         key: string, value: string, version: int)
    requires |reachable| == |before|
    requires WriteStatus(w, reachable) == 201
    ensures 1 + Holders(Replicated(before, reachable, |before|, key, value, version),
                        key, KVPair(value, version)) >= w
  {
    ReplicationReachesHolders(before, reachable, |before|, key, value, version);
    assert reachable[..|before|] == reachable;
  }

  /** With w equal to the cluster size (W = N), a 201 means that every peer
      was reached and now reads (value, version) locally. */
  lemma FullQuorumReachesEveryPeer(w: int, reachable: seq<bool>, before: seq<State>,
                                   key: string, value: string, version: int)
    requires |reachable| == |before| && w == 1 + |before|
    requires WriteStatus(w, reachable) == 201
    ensures forall i :: 0 <= i < |before| ==> reachable[i]
    ensures forall i :: 0 <= i < |before| ==>
      LocalReply(Replicated(before, reachable, |before|, key, value, version)[i].entries, key)
        == ReadReply(200, value, version)
  {
    forall i | 0 <= i < |before|
      ensures reachable[i]
    {
      if !reachable[i] {
        MissedPeerLowersSuccesses(reachable, i);
      }
    }
  }

  /** A failed call among the outcomes leaves the count below their number. */
  lemma {:induction false} MissedPeerLowersSuccesses(ok: seq<bool>, i: nat)
    requires i < |ok| && !ok[i]
    ensures Successes(ok) < |ok|
    decreases |ok|
  {
    if i < |ok| - 1 {
      MissedPeerLowersSuccesses(ok[..|ok| - 1], i);
    }
  }

  /** Read after write at the coordinator, as the consistency tests check it:
      whatever the replication outcome, the coordinator's Read returns the
      pair it just committed, under the version its Write reported. */
  lemma ReadAfterWrite(s: State, key: string, value: string)
    ensures LocalReply(AfterSet(s, key, value, None).entries, key) == ReadReply(200, value, s.counter + 1)
  {
  }

  /** One node of the leaderless cluster. */
  class LeaderlessNode {
    const nodeID: string
    const kvStore: KVStore
    const peers: seq<LeaderlessNode>
    const w: int
    const r: int

    /** The peers' stores. */
    ghost function PeerStores(): set<KVStore> {
      set i | 0 <= i < |peers| :: peers[i].kvStore
    }

    /** Every node owns its own store; the peer list does not include this node. */
    ghost predicate Distinct() {
      && (forall i :: 0 <= i < |peers| ==> peers[i].kvStore != kvStore)
      && (forall i, j :: 0 <= i < j < |peers| ==> peers[i].kvStore != peers[j].kvStore)
    }

    ghost predicate Valid()
      reads kvStore, PeerStores()
    {
      && Distinct()
      && kvStore.Valid()
      && forall i :: 0 <= i < |peers| ==> peers[i].kvStore.Valid()
    }

    /** The peers' store states, in list order. */
    ghost function PeerStates(): (states: seq<State>)
      reads PeerStores()
      ensures |states| == |peers|
      ensures forall i :: 0 <= i < |peers| ==> states[i] == peers[i].kvStore.Contents()
    {
      seq(|peers|, i reads PeerStores() requires 0 <= i < |peers| => peers[i].kvStore.Contents())
    }

    /** NewLeaderlessNode: a node with a new, empty store. */
    constructor (nodeID: string, peers: seq<LeaderlessNode>, w: int, r: int)
      requires forall i :: 0 <= i < |peers| ==> peers[i].kvStore.Valid()
      requires forall i, j :: 0 <= i < j < |peers| ==> peers[i].kvStore != peers[j].kvStore
      ensures Valid() && fresh(kvStore) && kvStore.Contents() == Empty
      ensures this.nodeID == nodeID && this.peers == peers && this.w == w && this.r == r
    {
      this.nodeID := nodeID;
      kvStore := new KVStore();
      this.peers := peers;
      this.w := w;
      this.r := r;
    }

    /** Write: this node coordinates. It commits locally under a fresh
        version, then tries every peer in order, with no early exit, and
        compares the count with w. The local write is never rolled back. */
    method Write(key: string, value: string, reachable: seq<bool>) returns (status: int, version: int)
      requires Valid() && |reachable| == |peers|
      modifies kvStore, PeerStores()
      ensures Valid()
      ensures key == "" ==> && status == 400 && version == 0
                            && kvStore.Contents() == old(kvStore.Contents())
                            && PeerStates() == old(PeerStates())
      ensures key != "" ==>
        && version == old(kvStore.versionCounter) + 1
        && kvStore.Contents() == AfterSet(old(kvStore.Contents()), key, value, None)
        && PeerStates() == Replicated(old(PeerStates()), reachable, |peers|, key, value, version)
        && status == WriteStatus(w, reachable)
      ensures status == 201 ==>
        && kvStore.store[key] == KVPair(value, version)
        && 1 + Holders(PeerStates(), key, KVPair(value, version)) >= w
    {
      ghost var before := PeerStates();
      if key == "" {
        return 400, 0;
      }
      version := kvStore.Set(key, value, None);
      var successfulWrites := 1;
      var i := 0;
      assert PeerStates() == Replicated(before, reachable, 0, key, value, version);
      while i < |peers|
        invariant 0 <= i <= |peers|
        invariant Valid()
        invariant kvStore.Contents() == AfterSet(old(kvStore.Contents()), key, value, None)
        invariant PeerStates() == Replicated(before, reachable, i, key, value, version)
        invariant successfulWrites == 1 + Successes(reachable[..i])
      {
        SuccessesStep(reachable, i);
        ReplicatedStep(before, reachable, i, key, value, version);
        var ok := ReplicateToPeer(i, key, value, version, reachable);
        if ok {
          successfulWrites := successfulWrites + 1;
        }
        i := i + 1;
      }
      assert reachable[..i] == reachable;
      if successfulWrites >= w {
        WriteQuorumHolds(w, reachable, before, key, value, version);
        return 201, version;
      }
      return 500, version;
    }

    /** replicateToPeer: the call to peer i succeeds exactly when it gets
        through and the peer answers 201; only peer i changes. */
    method ReplicateToPeer(i: nat, key: string, value: string, version: int, reachable: seq<bool>)
      returns (ok: bool)
      requires Valid() && i < |peers| == |reachable|
      modifies peers[i].kvStore
      ensures Valid()
      ensures ok == reachable[i]
      ensures PeerStates() == old(PeerStates())[i :=
        if reachable[i] then AfterSet(old(peers[i].kvStore.Contents()), key, value, Some(version))
        else old(peers[i].kvStore.Contents())]
    {
      ok := false;
      if reachable[i] {
        var status := peers[i].Replicate(key, value, version);
        ok := status == 201;
      }
    }

    /** Read ignores r and answers from this node's store alone, exactly as
        LocalRead does. */
    function Read(key: string): (reply: ReadReply)
      reads kvStore
      ensures reply == LocalRead(key)
      ensures reply == LocalReply(kvStore.store, key)
    {
      var (pair, found) := kvStore.Get(key);
      if !found then ReadReply(404, "", 0) else ReadReply(200, pair.value, pair.version)
    }

    /** Replicate applies another coordinator's write under that coordinator's
        version and always answers 201. */
    method Replicate(key: string, value: string, version: int) returns (status: int)
      requires kvStore.Valid()
      modifies kvStore
      ensures kvStore.Valid()
      ensures status == 201
      ensures kvStore.Contents() == AfterSet(old(kvStore.Contents()), key, value, Some(version))
    {
      var _ := kvStore.Set(key, value, Some(version));
      status := 201;
    }

    /** LocalRead answers from this node's store alone. */
    function LocalRead(key: string): (reply: ReadReply)
      reads kvStore
      ensures reply == LocalReply(kvStore.store, key)
    {
      var (pair, found) := kvStore.Get(key);
      if !found then ReadReply(404, "", 0) else ReadReply(200, pair.value, pair.version)
    }
  }
}
