/**
 * Counting for the write quorum, shared by both coordinators: how many
 * replication calls succeeded and how many replicas hold a given pair.
 */
module Quorum {
  import opened Store

  /** The number of successful calls among the outcomes. */
  function Successes(ok: seq<bool>): (n: nat)
    ensures n <= |ok|
  {
    if ok == [] then 0
    else Successes(ok[..|ok| - 1]) + (if ok[|ok| - 1] then 1 else 0)
  }

  /** Counting one more outcome adds one exactly when it is a success. */
  lemma SuccessesStep(ok: seq<bool>, i: nat)
    requires i < |ok|
    ensures Successes(ok[..i + 1]) == Successes(ok[..i]) + (if ok[i] then 1 else 0)
  {
    assert ok[..i + 1][..i] == ok[..i];
  }

  /** Turning failed calls into successes never lowers the count. */
  lemma {:induction false} SuccessesPointwise(ok: seq<bool>, more: seq<bool>)
    requires |more| == |ok|
    requires forall i :: 0 <= i < |ok| && ok[i] ==> more[i]
    ensures Successes(ok) <= Successes(more)
    decreases |ok|
  {
    if ok != [] {
      SuccessesPointwise(ok[..|ok| - 1], more[..|more| - 1]);
    }
  }

  /** True when the replica's store holds exactly pair p under key. */
  predicate Holds(s: State, key: string, p: KVPair) {
    key in s.entries && s.entries[key] == p
  }

  /** The number of replicas whose store holds pair p under key. */
  function Holders(states: seq<State>, key: string, p: KVPair): (n: nat)
    ensures n <= |states|
  {
    if states == [] then 0
    else Holders(states[..|states| - 1], key, p) + (if Holds(states[|states| - 1], key, p) then 1 else 0)
  }

  /** The replica states after the coordinator has tried the first n replicas
      in order: each of them that was reachable applied the explicit-version
      Set, every other replica is as it was. */
  function Replicated(before: seq<State>, reachable: seq<bool>, n: nat,
                      key: string, value: string, version: int): (after: seq<State>)
    requires |reachable| == |before|
    ensures |after| == |before|
    ensures forall i :: 0 <= i < |before| ==>
      after[i] == if i < n && reachable[i] then AfterSet(before[i], key, value, Some(version)) else before[i]
  {
    seq(|before|, i requires 0 <= i < |before| =>
      if i < n && reachable[i] then AfterSet(before[i], key, value, Some(version)) else before[i])
  }

  /** Trying one more replica changes only that replica. */
  lemma ReplicatedStep(before: seq<State>, reachable: seq<bool>, i: nat,
                       key: string, value: string, version: int)
    requires |reachable| == |before| && i < |before|
    ensures Replicated(before, reachable, i + 1, key, value, version)
         == Replicated(before, reachable, i, key, value, version)[i :=
              if reachable[i] then AfterSet(before[i], key, value, Some(version)) else before[i]]
  {
  }

  /** Replicas that were marked as holding p are counted by Holders. */
  lemma {:induction false} HoldersCover(states: seq<State>, ok: seq<bool>, n: nat, key: string, p: KVPair)
    requires |ok| == |states| && n <= |states|
    requires forall i :: 0 <= i < n && ok[i] ==> Holds(states[i], key, p)
    ensures Holders(states[..n], key, p) >= Successes(ok[..n])
    decreases n
  {
    if n > 0 {
      HoldersCover(states, ok, n - 1, key, p);
      SuccessesStep(ok, n - 1);
      assert states[..n][..n - 1] == states[..n - 1];
    }
  }

  /** Holders never counts fewer replicas in a sequence than in its prefix. */
  lemma {:induction false} HoldersPrefix(states: seq<State>, n: nat, key: string, p: KVPair)
    requires n <= |states|
    ensures Holders(states, key, p) >= Holders(states[..n], key, p)
    decreases |states|
  {
    if n < |states| {
      HoldersPrefix(states[..|states| - 1], n, key, p);
      assert states[..|states| - 1][..n] == states[..n];
    } else {
      assert states[..n] == states;
    }
  }

  /** After replication to the first n replicas, at least as many replicas
      hold the written pair as there were successful calls among them. */
  lemma ReplicationReachesHolders(before: seq<State>, reachable: seq<bool>, n: nat,
                                  key: string, value: string, version: int)
    requires |reachable| == |before| && n <= |before|
    ensures Holders(Replicated(before, reachable, n, key, value, version), key, KVPair(value, version))
         >= Successes(reachable[..n])
  {
    var after := Replicated(before, reachable, n, key, value, version);
    HoldersCover(after, reachable, n, key, KVPair(value, version));
    HoldersPrefix(after, n, key, KVPair(value, version));
  }
}
