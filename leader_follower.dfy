/**
 * The leader-follower topology: one leader coordinates every write and
 * quorum read, and replicates to a fixed, ordered list of followers.
 *
 * The network is an input: `reachable[i]` says whether the call to follower
 * i gets through. A replication call that gets through is answered by the
 * follower's Replicate (which always answers 201); one that does not changes
 * nothing. A local read that gets through answers 200 or 404 from the
 * follower's own store; one that does not is a failed read.
 */
module LeaderFollower {
  import opened Store
  import opened Quorum

  // ---------------------------------------------------------------------
  // Write: which followers are contacted, and the status it returns
  // ---------------------------------------------------------------------

  /** Where the replication loop stops when it reaches follower i with acks
      successful writes so far: right after the success that brings the count
      to w, or at the end of the list. */
  function ContactedFrom(w: int, reachable: seq<bool>, i: nat, acks: int): (n: nat)
    requires i <= |reachable|
    ensures i <= n <= |reachable|
    decreases |reachable| - i
  {
    if i == |reachable| then i
    else if reachable[i] && acks + 1 >= w then i + 1
    else ContactedFrom(w, reachable, i + 1, if reachable[i] then acks + 1 else acks)
  }

  /** The number of followers Write contacts: none when w is 1, otherwise a
      prefix of the list, the leader's own write counting as the first ack. */
  function Contacted(w: int, reachable: seq<bool>): (n: nat)
    ensures n <= |reachable|
  {
    if w == 1 then 0 else ContactedFrom(w, reachable, 0, 1)
  }

  /** The status Write returns for a non-empty key. */
  function WriteStatus(w: int, reachable: seq<bool>): int {
    if w == 1 || 1 + Successes(reachable[..Contacted(w, reachable)]) >= w then 201 else 500
  }

  /** The loop stops exactly when the count first reaches w: before follower j
      is contacted the count is still below w, and it stops before the end of
      the list only once the count has reached w. */
  lemma {:induction false} ContactedFromStops(w: int, reachable: seq<bool>, i: nat, acks: int)
    requires i <= |reachable| && w >= 2
    requires acks == 1 + Successes(reachable[..i]) && acks < w
    ensures forall j :: i <= j < ContactedFrom(w, reachable, i, acks) ==> 1 + Successes(reachable[..j]) < w
    ensures ContactedFrom(w, reachable, i, acks) < |reachable| ==>
      1 + Successes(reachable[..ContactedFrom(w, reachable, i, acks)]) >= w
    ensures 1 + Successes(reachable[..ContactedFrom(w, reachable, i, acks)]) >= w
        <==> 1 + Successes(reachable) >= w
    decreases |reachable| - i
  {
    var n := ContactedFrom(w, reachable, i, acks);
    if i == |reachable| {
      assert reachable[..i] == reachable;
    } else {
      SuccessesStep(reachable, i);
      if reachable[i] && acks + 1 >= w {
        assert n == i + 1;
        SuccessesMonotone(reachable, i + 1, |reachable|);
        assert reachable[..|reachable|] == reachable;
      } else {
        ContactedFromStops(w, reachable, i + 1, if reachable[i] then acks + 1 else acks);
      }
    }
  }

  /** Successes over a longer prefix is at least as large. */
  lemma {:induction false} SuccessesMonotone(ok: seq<bool>, i: nat, j: nat)
    requires i <= j <= |ok|
    ensures Successes(ok[..i]) <= Successes(ok[..j])
    decreases j - i
  {
    if i < j {
      SuccessesStep(ok, j - 1);
      SuccessesMonotone(ok, i, j - 1);
    }
  }

  /** With w == 1 no follower is contacted; with w >= 2 no follower is
      contacted once the count has reached w, and the loop ends early only
      after reaching it. */
  lemma WriteStopsAtQuorum(w: int, reachable: seq<bool>)
    ensures w == 1 ==> Contacted(w, reachable) == 0
    ensures w >= 2 ==> forall j :: 0 <= j < Contacted(w, reachable) ==> 1 + Successes(reachable[..j]) < w
    ensures w >= 2 && Contacted(w, reachable) < |reachable| ==>
      1 + Successes(reachable[..Contacted(w, reachable)]) >= w
  {
    if w >= 2 {
      ContactedFromStops(w, reachable, 0, 1);
    }
  }

  /** Write answers 201 exactly when the leader plus the reachable followers
      reach the write quorum w. */
  lemma WriteQuorumIff(w: int, reachable: seq<bool>)
    ensures WriteStatus(w, reachable) == 201 <==> w <= 1 + Successes(reachable)
    ensures WriteStatus(w, reachable) == 201 || WriteStatus(w, reachable) == 500
  {
    if w >= 2 {
      ContactedFromStops(w, reachable, 0, 1);
    }
  }

  /** On 201 at least w nodes hold the written pair: the leader and the
      followers that acknowledged. */
  lemma WriteQuorumHolds(w: int, reachable: seq<bool>, before: seq<State>,
                         key: string, value: string, version: int)
    requires |reachable| == |before|
    requires WriteStatus(w, reachable) == 201
    ensures 1 + Holders(Replicated(before, reachable, Contacted(w, reachable), key, value, version),
                        key, KVPair(value, version)) >= w
  {
    ReplicationReachesHolders(before, reachable, Contacted(w, reachable), key, value, version);
  }

  // ---------------------------------------------------------------------
  // Read: collecting answers and resolving the newest version
  // ---------------------------------------------------------------------

  /** What the leader learns from follower i's local read of key: the pair
      when the call gets through and the follower answers 200, None for a 404
      or a failed call. */
  function Answers(followers: seq<State>, reachable: seq<bool>, key: string): (answers: seq<Option<KVPair>>)
    requires |reachable| == |followers|
    ensures |answers| == |followers|
    ensures forall i :: 0 <= i < |followers| ==>
      (answers[i].Some? <==> reachable[i] && key in followers[i].entries)
    ensures forall i :: 0 <= i < |followers| && answers[i].Some? ==>
      answers[i].value == followers[i].entries[key]
  {
    seq(|followers|, i requires 0 <= i < |followers| =>
      var reply := LocalReply(followers[i].entries, key);
      if reachable[i] && reply.status == 200 then Some(KVPair(reply.value, reply.version)) else None)
  }

  /** The number of answers that carry a pair. */
  function Found(answers: seq<Option<KVPair>>): (n: nat)
    ensures n <= |answers|
  {
    if answers == [] then 0 else (if answers[0].Some? then 1 else 0) + Found(answers[1..])
  }

  /** The pairs the answers carry, in follower order. */
  function Pairs(answers: seq<Option<KVPair>>): (ps: seq<KVPair>)
    ensures |ps| == Found(answers)
    decreases |answers|
  {
    if answers == [] then []
    else (if answers[0].Some? then [answers[0].value] else []) + Pairs(answers[1..])
  }

  /** The first n elements of s (all of s when it is shorter, none when n <= 0). */
  function Prefix(s: seq<KVPair>, n: int): seq<KVPair> {
    if n <= 0 then [] else if n >= |s| then s else s[..n]
  }

  /** What the read loop has collected so far. */
  datatype Gathered = Gathered(results: seq<KVPair>, nodesRead: int)

  /** The read loop over the remaining answers: stop once nodesRead >= r,
      otherwise count and collect each answer that carries a pair. */
  function Gather(r: int, answers: seq<Option<KVPair>>, g: Gathered): Gathered
    decreases |answers|
  {
    if answers == [] || g.nodesRead >= r then g
    else Gather(r, answers[1..],
                if answers[0].Some? then Gathered(g.results + [answers[0].value], g.nodesRead + 1) else g)
  }

  /** Before the loop: the leader counts as one node read, and contributes
      its pair only when it has the key. */
  function InitialGather(leader: map<string, KVPair>, key: string): Gathered {
    Gathered(if key in leader then [leader[key]] else [], 1)
  }

  /** The index of the pair with the greatest version, the earliest one among
      equal versions. */
  function NewestIndex(s: seq<KVPair>): (k: nat)
    requires |s| > 0
    ensures k < |s|
    ensures forall j :: 0 <= j < |s| ==> s[j].version <= s[k].version
    ensures forall j :: 0 <= j < k ==> s[j].version < s[k].version
  {
    if |s| == 1 then 0
    else
      var m := NewestIndex(s[..|s| - 1]);
      if s[|s| - 1].version > s[m].version then |s| - 1 else m
  }

  /** One step of the read loop at answer i, before the quorum is reached. */
  lemma GatherStep(r: int, answers: seq<Option<KVPair>>, i: nat, g: Gathered)
    requires i < |answers| && g.nodesRead < r
    ensures Gather(r, answers[i..], g)
         == Gather(r, answers[i + 1..],
                   if answers[i].Some? then Gathered(g.results + [answers[i].value], g.nodesRead + 1) else g)
  {
    assert answers[i..][1..] == answers[i + 1..];
  }

  /** The read loop has nothing left to do at the end of the list or once the
      quorum is reached. */
  lemma GatherDone(r: int, answers: seq<Option<KVPair>>, i: nat, g: Gathered)
    requires i <= |answers|
    requires i == |answers| || g.nodesRead >= r
    ensures Gather(r, answers[i..], g) == g
  {
  }

  /** Extending the prefix by one pair moves the newest index to it exactly
      when its version is strictly greater. */
  lemma NewestIndexStep(s: seq<KVPair>, j: nat)
    requires 0 < j < |s|
    ensures NewestIndex(s[..j + 1])
         == if s[j].version > s[NewestIndex(s[..j])].version then j else NewestIndex(s[..j])
  {
    assert s[..j + 1][..j] == s[..j];
  }

  /** The reply of the leader's Read for read quorum r. */
  function ReadOutcome(r: int, leader: map<string, KVPair>, answers: seq<Option<KVPair>>, key: string): ReadReply {
    if r == 1 then LocalReply(leader, key)
    else
      var g := Gather(r, answers, InitialGather(leader, key));
      if g.nodesRead < r then ReadReply(500, "", 0)
      else if g.results == [] then ReadReply(404, "", 0)
      else
        var p := g.results[NewestIndex(g.results)];
        ReadReply(200, p.value, p.version)
  }

  /** What the read loop does: it keeps what was collected before, adds one
      pair per node it counts, stops counting at r, and collects only pairs
      that some answer carried. */
  lemma {:induction false} GatherFacts(r: int, answers: seq<Option<KVPair>>, g: Gathered)
    ensures |Gather(r, answers, g).results| >= |g.results|
    ensures Gather(r, answers, g).results[..|g.results|] == g.results
    ensures |Gather(r, answers, g).results| - |g.results| == Gather(r, answers, g).nodesRead - g.nodesRead
    ensures g.nodesRead >= r ==> Gather(r, answers, g) == g
    ensures g.nodesRead < r ==>
      Gather(r, answers, g).nodesRead == if g.nodesRead + Found(answers) < r then g.nodesRead + Found(answers) else r
    ensures forall j :: |g.results| <= j < |Gather(r, answers, g).results| ==>
      Some(Gather(r, answers, g).results[j]) in answers
    decreases |answers|
  {
    if answers != [] && g.nodesRead < r {
      var g1 := if answers[0].Some? then Gathered(g.results + [answers[0].value], g.nodesRead + 1) else g;
      GatherFacts(r, answers[1..], g1);
      var g2 := Gather(r, answers[1..], g1);
      assert g2 == Gather(r, answers, g);
      assert g2.results[..|g.results|] == g1.results[..|g.results|];
      forall j | |g.results| <= j < |g2.results|
        ensures Some(g2.results[j]) in answers
      {
        if j >= |g1.results| {
          assert Some(g2.results[j]) in answers[1..];
        } else {
          assert g2.results[j] == g1.results[j] == answers[0].value;
        }
      }
    }
  }

  /** Which pairs the read loop collects: those of the first answers that
      carry one, in follower order, and no more than the r - nodesRead still
      missing. */
  lemma {:induction false} GatherCollectsFirstPairs(r: int, answers: seq<Option<KVPair>>, g: Gathered)
    requires g.nodesRead < r
    ensures Gather(r, answers, g).results == g.results + Prefix(Pairs(answers), r - g.nodesRead)
    decreases |answers|
  {
    if answers != [] {
      var g1 := if answers[0].Some? then Gathered(g.results + [answers[0].value], g.nodesRead + 1) else g;
      var rest := Pairs(answers[1..]);
      if answers[0].Some? {
        assert Pairs(answers) == [answers[0].value] + rest;
        if g1.nodesRead < r {
          GatherCollectsFirstPairs(r, answers[1..], g1);
          assert Prefix(Pairs(answers), r - g.nodesRead) == [answers[0].value] + Prefix(rest, r - g1.nodesRead);
        } else {
          assert Prefix(Pairs(answers), r - g.nodesRead) == [answers[0].value];
        }
      } else {
        GatherCollectsFirstPairs(r, answers[1..], g1);
        assert Pairs(answers) == rest;
      }
    }
  }

  /** With r == 1 Read is the leader's local read. With r >= 2 it fails with
      500 exactly when fewer than r nodes (the leader and the followers that
      answered with a pair) were read, and it never answers 404; in
      particular a key absent everywhere gives 500. */
  lemma ReadQuorumStatus(r: int, leader: map<string, KVPair>, answers: seq<Option<KVPair>>, key: string)
    ensures r == 1 ==> ReadOutcome(r, leader, answers, key) == LocalReply(leader, key)
    ensures r >= 2 ==> (ReadOutcome(r, leader, answers, key).status == 500 <==> 1 + Found(answers) < r)
    ensures r >= 2 ==> ReadOutcome(r, leader, answers, key).status in {200, 500}
  {
    GatherFacts(r, answers, InitialGather(leader, key));
  }

  /** A Read that answers 200 with r != 1 returns a pair it collected, whose
      version is the greatest collected and is at least the leader's own. */
  lemma ReadResolvesNewest(r: int, leader: map<string, KVPair>, answers: seq<Option<KVPair>>, key: string)
    requires r != 1
    requires ReadOutcome(r, leader, answers, key).status == 200
    ensures var reply := ReadOutcome(r, leader, answers, key);
      && ((key in leader && KVPair(reply.value, reply.version) == leader[key])
          || Some(KVPair(reply.value, reply.version)) in answers)
      && (key in leader ==> reply.version >= leader[key].version)
      && (key in leader && reply.version == leader[key].version ==> KVPair(reply.value, reply.version) == leader[key])
      && forall i :: 0 <= i < |answers| && answers[i].Some? && answers[i].value in Gather(r, answers, InitialGather(leader, key)).results ==>
           answers[i].value.version <= reply.version
  {
    var g0 := InitialGather(leader, key);
    var g := Gather(r, answers, g0);
    GatherFacts(r, answers, g0);
    var k := NewestIndex(g.results);
    if k < |g0.results| {
      assert g.results[k] == g0.results[k] == leader[key];
    } else {
      assert Some(g.results[k]) in answers;
    }
    if key in leader {
      assert g.results[0] == g0.results[0];
      if k > 0 {
        assert g.results[0].version < g.results[k].version;
      }
    }
  }

  /** Every follower entry is one the leader wrote: the leader has the key,
      with a newer version or the very same pair. */
  ghost predicate Dominated(leader: State, followers: seq<State>) {
    forall i, k :: 0 <= i < |followers| && k in followers[i].entries ==>
      && k in leader.entries
      && (followers[i].entries[k].version < leader.entries[k].version
          || followers[i].entries[k] == leader.entries[k])
  }

  /** A cluster of new stores is dominated. */
  lemma EmptyIsDominated(followers: seq<State>)
    requires forall i :: 0 <= i < |followers| ==> followers[i] == Empty
    ensures Dominated(Empty, followers)
  {
  }

  /** A Write, whatever its outcome, keeps the followers dominated by the
      leader: the leader's new version is above every version anywhere. */
  lemma WriteKeepsDominated(leader: State, followers: seq<State>, reachable: seq<bool>, n: nat,
                            key: string, value: string)
    requires Bounded(leader) && Dominated(leader, followers) && |reachable| == |followers|
    ensures Dominated(AfterSet(leader, key, value, None),
                      Replicated(followers, reachable, n, key, value, leader.counter + 1))
  {
    var leader' := AfterSet(leader, key, value, None);
    var followers' := Replicated(followers, reachable, n, key, value, leader.counter + 1);
    forall i, k | 0 <= i < |followers'| && k in followers'[i].entries
      ensures k in leader'.entries
      ensures followers'[i].entries[k].version < leader'.entries[k].version
           || followers'[i].entries[k] == leader'.entries[k]
    {
      if k == key {
        assert leader'.entries[key] == KVPair(value, leader.counter + 1);
        if i < n && reachable[i] {
          assert followers'[i].entries[key] == KVPair(value, leader.counter + 1);
        } else {
          assert followers'[i] == followers[i];
          assert followers[i].entries[key].version <= leader.entries[key].version <= leader.counter;
        }
      } else {
        assert leader'.entries[k] == leader.entries[k];
        assert k in followers[i].entries && followers'[i].entries[k] == followers[i].entries[k];
      }
    }
  }

  /** In a dominated cluster a successful quorum read returns the leader's own
      pair, whatever r is and whichever followers answer. */
  lemma DominatedReadIsLeaders(r: int, leader: State, followers: seq<State>, reachable: seq<bool>, key: string)
    requires Dominated(leader, followers) && |reachable| == |followers|
    requires ReadOutcome(r, leader.entries, Answers(followers, reachable, key), key).status == 200
    ensures key in leader.entries
    ensures var reply := ReadOutcome(r, leader.entries, Answers(followers, reachable, key), key);
      KVPair(reply.value, reply.version) == leader.entries[key]
  {
    var answers := Answers(followers, reachable, key);
    if r != 1 {
      var g0 := InitialGather(leader.entries, key);
      var g := Gather(r, answers, g0);
      GatherFacts(r, answers, g0);
      assert Agrees: forall j :: |g0.results| <= j < |g.results| ==>
        key in leader.entries
        && (g.results[j].version < leader.entries[key].version || g.results[j] == leader.entries[key]) by {
        forall j | |g0.results| <= j < |g.results|
          ensures key in leader.entries
          ensures g.results[j].version < leader.entries[key].version || g.results[j] == leader.entries[key]
        {
          var i :| 0 <= i < |answers| && answers[i] == Some(g.results[j]);
        }
      }
      assert |g.results| > 0;
      var k := NewestIndex(g.results);
      if key !in leader.entries {
        assert false;
      }
      assert g.results[0] == leader.entries[key];
    }
  }

  /** Read after write, as the consistency tests check it: once Write has
      committed (key, value) locally under version v, a read with r == 1
      returns (value, v), and in a dominated cluster every read that answers
      200 returns (value, v), whatever the replication outcome was. */
  lemma ReadAfterWrite(leader: State, followers: seq<State>, w: int, reachable: seq<bool>,
                       r: int, readReachable: seq<bool>, key: string, value: string)
    requires Bounded(leader) && Dominated(leader, followers)
    requires |reachable| == |followers| && |readReachable| == |followers|
    ensures var v := leader.counter + 1;
      var reply := ReadOutcome(r, AfterSet(leader, key, value, None).entries,
                               Answers(Replicated(followers, reachable, Contacted(w, reachable), key, value, v),
                                       readReachable, key),
                               key);
      && (r == 1 ==> reply == ReadReply(200, value, v))
      && (reply.status == 200 ==> reply.value == value && reply.version == v)
  {
    var v := leader.counter + 1;
    var followers' := Replicated(followers, reachable, Contacted(w, reachable), key, value, v);
    WriteKeepsDominated(leader, followers, reachable, Contacted(w, reachable), key, value);
    var reply := ReadOutcome(r, AfterSet(leader, key, value, None).entries, Answers(followers', readReachable, key), key);
    if reply.status == 200 {
      DominatedReadIsLeaders(r, AfterSet(leader, key, value, None), followers', readReachable, key);
    }
  }

  // ---------------------------------------------------------------------
  // The nodes
  // ---------------------------------------------------------------------

  /** A follower: a store that the leader replicates into. */
  class FollowerNode {
    const kvStore: KVStore

    /** NewFollowerNode: a follower with a new, empty store. */
    constructor ()
      ensures fresh(kvStore) && kvStore.Valid() && kvStore.Contents() == Empty
    {
      kvStore := new KVStore();
    }

    /** Replicate applies the leader's write under the leader's version and
        always answers 201. */
    method Replicate(key: string, value: string, version: int) returns (status: int)
      requires kvStore.Valid()
      modifies kvStore
      ensures kvStore.Valid()
      ensures status == 201
      ensures kvStore.Contents() == AfterSet(old(kvStore.Contents()), key, value, Some(version))
    {
      var _ := kvStore.Set(key, value, Some(version));
      status := 201;
    }

    /** LocalRead answers from this follower's store alone. */
    function LocalRead(key: string): (reply: ReadReply)
      reads kvStore
      ensures reply == LocalReply(kvStore.store, key)
    {
      var (pair, found) := kvStore.Get(key);
      if !found then ReadReply(404, "", 0) else ReadReply(200, pair.value, pair.version)
    }
  }

  /** The leader: its own store, the ordered followers, and the quorums. */
  class LeaderNode {
    const kvStore: KVStore
    const followers: seq<FollowerNode>
    const w: int
    const r: int

    /** The followers' stores. */
    ghost function FollowerStores(): set<KVStore> {
      set i | 0 <= i < |followers| :: followers[i].kvStore
    }

    /** Every node owns its own store. */
    ghost predicate Distinct() {
      && (forall i :: 0 <= i < |followers| ==> followers[i].kvStore != kvStore)
      && (forall i, j :: 0 <= i < j < |followers| ==> followers[i].kvStore != followers[j].kvStore)
    }

    ghost predicate Valid()
      reads kvStore, FollowerStores()
    {
      && Distinct()
      && kvStore.Valid()
      && forall i :: 0 <= i < |followers| ==> followers[i].kvStore.Valid()
    }

    /** The followers' store states, in list order. */
    ghost function FollowerStates(): (states: seq<State>)
      reads FollowerStores()
      ensures |states| == |followers|
      ensures forall i :: 0 <= i < |followers| ==> states[i] == followers[i].kvStore.Contents()
    {
      seq(|followers|, i reads FollowerStores() requires 0 <= i < |followers| => followers[i].kvStore.Contents())
    }

    /** NewLeaderNode: a leader with a new, empty store. */
    constructor (followers: seq<FollowerNode>, w: int, r: int)
      requires forall i :: 0 <= i < |followers| ==> followers[i].kvStore.Valid()
      requires forall i, j :: 0 <= i < j < |followers| ==> followers[i].kvStore != followers[j].kvStore
      ensures Valid() && fresh(kvStore) && kvStore.Contents() == Empty
      ensures this.followers == followers && this.w == w && this.r == r
    {
      kvStore := new KVStore();
      this.followers := followers;
      this.w := w;
      this.r := r;
    }

    /** Write commits locally under a fresh version, then replicates to the
        followers in order until the write quorum is met. The local write is
        never rolled back. */
    method Write(key: string, value: string, reachable: seq<bool>) returns (status: int, version: int)
      requires Valid() && |reachable| == |followers|
      modifies kvStore, FollowerStores()
      ensures Valid()
      ensures key == "" ==> && status == 400 && version == 0
                            && kvStore.Contents() == old(kvStore.Contents())
                            && FollowerStates() == old(FollowerStates())
      ensures key != "" ==>
        && version == old(kvStore.versionCounter) + 1
        && kvStore.Contents() == AfterSet(old(kvStore.Contents()), key, value, None)
        && FollowerStates() == Replicated(old(FollowerStates()), reachable, Contacted(w, reachable), key, value, version)
        && status == WriteStatus(w, reachable)
      ensures status == 201 ==>
        && kvStore.store[key] == KVPair(value, version)
        && 1 + Holders(FollowerStates(), key, KVPair(value, version)) >= w
    {
      ghost var before := FollowerStates();
      if key == "" {
        return 400, 0;
      }
      version := kvStore.Set(key, value, None);
      var successfulWrites := 1;
      if w == 1 {
        assert FollowerStates() == Replicated(before, reachable, 0, key, value, version);
        WriteQuorumHolds(w, reachable, before, key, value, version);
        return 201, version;
      }
      var i := 0;
      assert FollowerStates() == Replicated(before, reachable, 0, key, value, version);
      while i < |followers|
        invariant 0 <= i <= |followers|
        invariant Valid()
        invariant kvStore.Contents() == AfterSet(old(kvStore.Contents()), key, value, None)
        invariant FollowerStates() == Replicated(before, reachable, i, key, value, version)
        invariant successfulWrites == 1 + Successes(reachable[..i])
        invariant Contacted(w, reachable) == ContactedFrom(w, reachable, i, successfulWrites)
      {
        SuccessesStep(reachable, i);
        ReplicatedStep(before, reachable, i, key, value, version);
        var ok := ReplicateToFollower(i, key, value, version, reachable);
        if ok {
          successfulWrites := successfulWrites + 1;
          if successfulWrites >= w {
            WriteQuorumHolds(w, reachable, before, key, value, version);
            return 201, version;
          }
        }
        i := i + 1;
      }
      assert reachable[..i] == reachable;
      if successfulWrites >= w {
        WriteQuorumHolds(w, reachable, before, key, value, version);
        return 201, version;
      }
      return 500, version;
    }

    /** replicateToFollower: the call to follower i succeeds exactly when it
        gets through and the follower answers 201; only follower i changes. */
    method ReplicateToFollower(i: nat, key: string, value: string, version: int, reachable: seq<bool>)
      returns (ok: bool)
      requires Valid() && i < |followers| == |reachable|
      modifies followers[i].kvStore
      ensures Valid()
      ensures ok == reachable[i]
      ensures FollowerStates() == old(FollowerStates())[i :=
        if reachable[i] then AfterSet(old(followers[i].kvStore.Contents()), key, value, Some(version))
        else old(followers[i].kvStore.Contents())]
    {
      ok := false;
      if reachable[i] {
        var status := followers[i].Replicate(key, value, version);
        ok := status == 201;
      }
    }

    /** Read: with r == 1 the leader's local read; otherwise the leader and
        then the followers in order until r nodes are read, resolved to the
        collected pair with the greatest version. */
    method Read(key: string, reachable: seq<bool>) returns (reply: ReadReply)
      requires |reachable| == |followers|
      ensures reply == ReadOutcome(r, kvStore.store, Answers(FollowerStates(), reachable, key), key)
    {
      if r == 1 {
        var (pair, found) := kvStore.Get(key);
        if !found {
          return ReadReply(404, "", 0);
        }
        return ReadReply(200, pair.value, pair.version);
      }
      ghost var answers := Answers(FollowerStates(), reachable, key);
      var results: seq<KVPair> := [];
      var (pair, found) := kvStore.Get(key);
      if found {
        results := results + [pair];
      }
      var nodesRead := 1;
      var i := 0;
      assert answers[i..] == answers;
      assert InitialGather(kvStore.store, key) == Gathered(results, nodesRead);
      while i < |followers|
        invariant 0 <= i <= |followers|
        invariant answers == Answers(FollowerStates(), reachable, key)
        invariant Gather(r, answers, InitialGather(kvStore.store, key)) == Gather(r, answers[i..], Gathered(results, nodesRead))
      {
        if nodesRead >= r {
          break;
        }
        GatherStep(r, answers, i, Gathered(results, nodesRead));
        if reachable[i] {
          var answer := followers[i].LocalRead(key);
          if answer.status == 200 {
            results := results + [KVPair(answer.value, answer.version)];
            nodesRead := nodesRead + 1;
          }
        }
        i := i + 1;
      }
      GatherDone(r, answers, i, Gathered(results, nodesRead));
      assert Gather(r, answers, InitialGather(kvStore.store, key)) == Gathered(results, nodesRead);
      if nodesRead < r {
        assert ReadOutcome(r, kvStore.store, answers, key) == ReadReply(500, "", 0);
        return ReadReply(500, "", 0);
      }
      if |results| == 0 {
        assert results == [];
        assert ReadOutcome(r, kvStore.store, answers, key) == ReadReply(404, "", 0);
        return ReadReply(404, "", 0);
      }
      ghost var states := FollowerStates();
      var latest := Newest(results);
      forall i | 0 <= i < |followers|
        ensures FollowerStates()[i] == states[i]
      {
        assert followers[i].kvStore.Contents() == old(followers[i].kvStore.Contents());
      }
      assert FollowerStates() == states;
      assert answers == Answers(FollowerStates(), reachable, key);
      assert ReadOutcome(r, kvStore.store, answers, key) == ReadReply(200, latest.value, latest.version);
      return ReadReply(200, latest.value, latest.version);
    }

    /** The last step of Read: the pair with the highest version, the first
        such pair on a tie. */
    static method Newest(results: seq<KVPair>) returns (latest: KVPair)
      requires |results| > 0
      ensures latest == results[NewestIndex(results)]
    {
      latest := results[0];
      ghost var k := 0;
      var j := 0;
      while j < |results|
        invariant 0 <= j <= |results|
        invariant k < |results| && latest == results[k]
        invariant k == NewestIndex(results[..if j == 0 then 1 else j])
      {
        if j > 0 {
          NewestIndexStep(results, j);
        }
        if results[j].version > latest.version {
          latest := results[j];
          k := j;
        }
        j := j + 1;
      }
      assert results[..|results|] == results;
    }

    /** LocalRead answers from the leader's store alone. */
    function LocalRead(key: string): (reply: ReadReply)
      reads kvStore
      ensures reply == LocalReply(kvStore.store, key)
    {
      var (pair, found) := kvStore.Get(key);
      if !found then ReadReply(404, "", 0) else ReadReply(200, pair.value, pair.version)
    }
  }
}
