/**
 * The per-node versioned store shared by both topologies: a map from key to
 * (value, version) and a version counter. The leader-follower and the
 * leaderless packages carry identical copies of it, so it is modelled once.
 */
module Store {

  datatype Option<T> = None | Some(value: T)

  /** A stored value together with the version it was written under. */
  datatype KVPair = KVPair(value: string, version: int)

  /** The abstract state of one KVStore: its entries and its version counter. */
  datatype State = State(entries: map<string, KVPair>, counter: int)

  /** The answer of a read endpoint: status code, value and version. */
  datatype ReadReply = ReadReply(status: int, value: string, version: int)

  /** The state of a newly created store. */
  const Empty: State := State(map[], 0)

  /** The store invariant: the counter is never negative and no entry carries
      a version above it. */
  ghost predicate Bounded(s: State) {
    && s.counter >= 0
    && forall k :: k in s.entries ==> s.entries[k].version <= s.counter
  }

  /** The version a Set stores: the next counter value when no version is
      given, and exactly the given version otherwise. */
  function AssignedVersion(counter: int, version: Option<int>): int {
    match version
    case None => counter + 1
    case Some(v) => v
  }

  /** The counter after a Set: one more when no version is given, the larger
      of the two when one is. */
  function NextCounter(counter: int, version: Option<int>): int {
    match version
    case None => counter + 1
    case Some(v) => if v > counter then v else counter
  }

  /** The state after Set(key, value, version). */
  function AfterSet(s: State, key: string, value: string, version: Option<int>): State {
    State(s.entries[key := KVPair(value, AssignedVersion(s.counter, version))],
          NextCounter(s.counter, version))
  }

  /** Get on a map of entries: the pair and whether it exists (the zero pair
      when it does not). */
  function Lookup(entries: map<string, KVPair>, key: string): (KVPair, bool) {
    if key in entries then (entries[key], true) else (KVPair("", 0), false)
  }

  /** The reply of a purely local read: 200 with the stored pair, or 404. */
  function LocalReply(entries: map<string, KVPair>, key: string): (reply: ReadReply)
    ensures reply.status == 200 || reply.status == 404
    ensures reply.status == 200 <==> key in entries
    ensures key in entries ==> KVPair(reply.value, reply.version) == entries[key]
    ensures key !in entries ==> reply == ReadReply(404, "", 0)
  {
    var (pair, found) := Lookup(entries, key);
    if !found then ReadReply(404, "", 0) else ReadReply(200, pair.value, pair.version)
  }

  /** Set with no explicit version assigns counter + 1, advances the counter
      by exactly one, and the new version is positive. */
  lemma FreshSetAdvancesCounter(s: State, key: string, value: string)
    requires Bounded(s)
    ensures AssignedVersion(s.counter, None) == s.counter + 1 >= 1
    ensures AfterSet(s, key, value, None).counter == s.counter + 1
    ensures AfterSet(s, key, value, None).entries[key] == KVPair(value, s.counter + 1)
  {
  }

  /** Set with an explicit version stores exactly that version, even one below
      the version the key already has, and the counter becomes the larger of
      the old counter and the version. */
  lemma ExplicitSetStoresVersion(s: State, key: string, value: string, v: int)
    ensures AfterSet(s, key, value, Some(v)).entries[key] == KVPair(value, v)
    ensures AfterSet(s, key, value, Some(v)).counter >= s.counter
    ensures AfterSet(s, key, value, Some(v)).counter >= v
    ensures AfterSet(s, key, value, Some(v)).counter == s.counter || AfterSet(s, key, value, Some(v)).counter == v
  {
  }

  /** Reading right after a Set returns what was set; every other key reads
      as before. */
  lemma GetAfterSet(s: State, key: string, value: string, version: Option<int>, other: string)
    ensures Lookup(AfterSet(s, key, value, version).entries, key)
         == (KVPair(value, AssignedVersion(s.counter, version)), true)
    ensures other != key ==>
      Lookup(AfterSet(s, key, value, version).entries, other) == Lookup(s.entries, other)
  {
  }

  /** Set never lowers the counter and keeps the store invariant. */
  lemma SetKeepsBounded(s: State, key: string, value: string, version: Option<int>)
    requires Bounded(s)
    ensures AfterSet(s, key, value, version).counter >= s.counter
    ensures Bounded(AfterSet(s, key, value, version))
  {
  }

  /** Replaying an explicit-version Set leaves the store as one call left it. */
  lemma ReplayIsIdempotent(s: State, key: string, value: string, v: int)
    ensures AfterSet(AfterSet(s, key, value, Some(v)), key, value, Some(v))
         == AfterSet(s, key, value, Some(v))
  {
  }

  /** One call Set(key, value, version), for reasoning about a history of calls. */
  datatype SetCall = SetCall(key: string, value: string, version: Option<int>)

  /** The state after applying a history of Set calls in order. */
  function Run(s: State, calls: seq<SetCall>): State
    decreases |calls|
  {
    if calls == [] then s
    else Run(AfterSet(s, calls[0].key, calls[0].value, calls[0].version), calls[1..])
  }

  /** Over any history of Set calls the counter never decreases and stays at or
      above every stored version; in particular this holds for every store
      that started as Empty. */
  lemma {:induction false} RunKeepsBounded(s: State, calls: seq<SetCall>)
    requires Bounded(s)
    ensures Run(s, calls).counter >= s.counter
    ensures Bounded(Run(s, calls))
    decreases |calls|
  {
    if calls != [] {
      SetKeepsBounded(s, calls[0].key, calls[0].value, calls[0].version);
      RunKeepsBounded(AfterSet(s, calls[0].key, calls[0].value, calls[0].version), calls[1..]);
    }
  }

  /** The in-memory store of one node. */
  class KVStore {
    var store: map<string, KVPair>
    var versionCounter: int

    /** The abstract value of this store. */
    function Contents(): State
      reads this
    {
      State(store, versionCounter)
    }

    ghost predicate Valid()
      reads this
    {
      Bounded(Contents())
    }

    /** NewKVStore: an empty map and a zero counter. */
    constructor ()
      ensures Valid()
      ensures Contents() == Empty
    {
      store := map[];
      versionCounter := 0;
    }

    /** Set(key, value, version): stores the pair under the assigned version
        and returns that version. */
    method Set(key: string, value: string, version: Option<int>) returns (v: int)
      requires Valid()
      modifies this
      ensures Valid()
      ensures v == AssignedVersion(old(versionCounter), version)
      ensures Contents() == AfterSet(old(Contents()), key, value, version)
    {
      if version.None? {
        versionCounter := versionCounter + 1;
        v := versionCounter;
      } else {
        v := version.value;
        if v > versionCounter {
          versionCounter := v;
        }
      }
      store := store[key := KVPair(value, v)];
    }

    /** Get(key): the stored pair and whether the key exists. */
    function Get(key: string): (result: (KVPair, bool))
      reads this
      ensures result.1 <==> key in store
      ensures result.1 ==> result.0 == store[key]
    {
      Lookup(store, key)
    }
  }
}
