/** Writing with a cached collection schema, and retrying with a fresh one when the server reports a mismatch. One
    caller at a time. */
module SchemaRetries {
  import opened Wrappers

  type Timestamp = x: int | 0 <= x <= MAX_TIMESTAMP witness 0

  const MAX_TIMESTAMP: int := 0xFFFF_FFFF_FFFF_FFFF
  const MAX_ATTEMPTS: nat := 10

  datatype Outcome = Success | Mismatch | OtherError

  /** What the server does around one attempt: its answer if the schema is fetched, None if that fails, and its
      answer to the write itself. */
  datatype Try = Try(fetch: Option<Timestamp>, outcome: Outcome)

  class CollectionCache {
    /** The update timestamps of the cached schemas. */
    var collections: map<string, Timestamp>
    var fetches: nat

    constructor ()
      ensures collections == map[] && fetches == 0
    {
      collections, fetches := map[], 0;
    }

    /** A cached schema is used as it is; otherwise it is fetched, and cached unless the fetch fails. */
    method GetCollection(name: string, reply: Option<Timestamp>) returns (r: Option<Timestamp>)
      modifies this
      ensures name in old(collections) ==>
                r == Some(old(collections)[name]) && collections == old(collections) && fetches == old(fetches)
      ensures name !in old(collections) ==>
                && r == reply && fetches == old(fetches) + 1
                && collections == if reply.Some? then old(collections)[name := reply.value] else old(collections)
    {
      if name in collections {
        return Some(collections[name]);
      }
      fetches := fetches + 1;
      if reply.Some? {
        collections := collections[name := reply.value];
      }
      r := reply;
    }

    method Evict(name: string)
      modifies this`collections
      ensures collections == old(collections) - {name}
    {
      collections := collections - {name};
    }
  }

  /** What the attempt before attempt i saw; the largest timestamp stands for "nothing yet". */
  function Before(seen: seq<Timestamp>, i: nat): Timestamp
    requires i <= |seen|
  {
    if i == 0 then MAX_TIMESTAMP else seen[i-1]
  }

  /** Attempt i ended in a mismatch with a timestamp that the attempt before had not seen. */
  ghost predicate Retried(seen: seq<Timestamp>, tries: seq<Try>, i: nat)
    requires i < |seen| <= |tries|
  {
    tries[i].outcome == Mismatch && seen[i] != Before(seen, i)
  }

  lemma RetriedStays(seen: seq<Timestamp>, ts: Timestamp, tries: seq<Try>, i: nat)
    requires i < |seen| < |tries| && Retried(seen, tries, i)
    ensures Retried(seen + [ts], tries, i)
  {
  }

  /** All attempts but the last ended in a mismatch with a timestamp not seen by the attempt before. The last one may
      be the failed fetch. */
  ghost predicate RetriedOnChange(seen: seq<Timestamp>, failedFetch: bool, tries: seq<Try>)
    requires |seen| <= |tries|
  {
    forall i :: 0 <= i < |seen| && (failedFetch || i + 1 < |seen|) ==> Retried(seen, tries, i)
  }

  /** Every attempt after the first saw what the server answered for it, not what was cached. */
  ghost predicate Refetched(seen: seq<Timestamp>, tries: seq<Try>)
    requires |seen| <= |tries|
  {
    forall i :: 1 <= i < |seen| ==> tries[i].fetch == Some(seen[i])
  }

  /** Runs the write until it succeeds, fails otherwise, sees the same timestamp twice, or has been tried ten times.
      `seen` are the schema timestamps of the attempts that reached the server, and `failedFetch` says that one more
      attempt ended because the schema could not be fetched. */
  method RetryIfSchemaError(cache: CollectionCache, name: string, tries: seq<Try>)
    returns (seen: seq<Timestamp>, failedFetch: bool, r: Outcome)
    requires |tries| == MAX_ATTEMPTS
    modifies cache
    ensures 1 <= |seen| + (if failedFetch then 1 else 0) <= 10
    ensures |seen| <= |tries| && RetriedOnChange(seen, failedFetch, tries) && Refetched(seen, tries)
    ensures forall i :: 0 <= i < |seen| && (failedFetch || i + 1 < |seen|) ==>
              tries[i].outcome == Mismatch && (i > 0 ==> seen[i] != seen[i-1])
    ensures forall i :: 1 <= i < |seen| ==> tries[i].fetch == Some(seen[i])
    ensures !failedFetch ==> r == tries[|seen|-1].outcome
    ensures !failedFetch && r == Mismatch ==>
              var n := |seen|;
              n == 10 || seen[n-1] == Before(seen, n - 1)
    ensures failedFetch ==> r == OtherError && tries[|seen|].fetch.None?
    ensures seen != [] && name in old(cache.collections) ==> seen[0] == old(cache.collections)[name]
    ensures cache.fetches == old(cache.fetches) + |seen| + (if failedFetch then 1 else 0)
                             - (if name in old(cache.collections) then 1 else 0)
  {
    seen, failedFetch, r := [], false, Mismatch;
    var lastTs: Timestamp := MAX_TIMESTAMP;
    ghost var cached := name in cache.collections;
    for i := 0 to MAX_ATTEMPTS
      invariant |seen| == i && !failedFetch && r == Mismatch
      invariant lastTs == Before(seen, i)
      invariant forall j :: 0 <= j < i ==> Retried(seen, tries, j)
      invariant forall j :: 0 <= j < i ==> tries[j].outcome == Mismatch && (j > 0 ==> seen[j] != seen[j-1])
      invariant Refetched(seen, tries)
      invariant i == 0 ==> cache.collections == old(cache.collections)
      invariant i > 0 ==> name !in cache.collections
      invariant i > 0 && cached ==> seen[0] == old(cache.collections)[name]
      invariant cache.fetches == old(cache.fetches) + i - (if cached && i > 0 then 1 else 0)
    {
      var coll := cache.GetCollection(name, tries[i].fetch);
      if coll.None? {
        failedFetch, r := true, OtherError;
        return;
      }
      var ts := coll.value;
      assert i > 0 ==> tries[i].fetch == Some(ts);
      forall j | 0 <= j < i
        ensures Retried(seen + [ts], tries, j)
      {
        RetriedStays(seen, ts, tries, j);
      }
      seen := seen + [ts];
      if tries[i].outcome == Mismatch {
        var sameTs := ts == lastTs;
        lastTs := ts;
        if sameTs {
          return;
        }
        cache.Evict(name);
      } else {
        r := tries[i].outcome;
        return;
      }
    }
    assert Retried(seen, tries, MAX_ATTEMPTS - 1);
  }

  // ----- How many attempts -----

  /** How often neighbours differ. */
  function Changes(s: seq<Timestamp>): nat {
    if |s| < 2 then 0 else Changes(s[..|s|-1]) + (if s[|s|-1] != s[|s|-2] then 1 else 0)
  }

  lemma {:induction false} AllDifferent(s: seq<Timestamp>)
    requires forall i :: 1 <= i < |s| ==> s[i] != s[i-1]
    ensures Changes(s) == if s == [] then 0 else |s| - 1
  {
    if |s| >= 2 {
      AllDifferent(s[..|s|-1]);
    }
  }

  /** The caller sees the server's schema versions at rising times. */
  ghost predicate Observed(seen: seq<Timestamp>, versions: seq<Timestamp>, times: seq<nat>) {
    && |times| == |seen|
    && (forall i, j :: 0 <= i < j < |times| ==> times[i] <= times[j])
    && forall i :: 0 <= i < |times| ==> times[i] < |versions| && seen[i] == versions[times[i]]
  }

  lemma {:induction false} ChangesTo(versions: seq<Timestamp>, i: nat, j: nat)
    requires i <= j < |versions|
    ensures Changes(versions[..i+1]) + (if versions[i] != versions[j] then 1 else 0) <= Changes(versions[..j+1])
    decreases j
  {
    if i < j {
      ChangesTo(versions, i, j - 1);
      assert versions[..j+1][..j] == versions[..j];
    }
  }

  /** Nobody sees more changes than happen. */
  lemma {:induction false} ObservedChanges(seen: seq<Timestamp>, versions: seq<Timestamp>, times: seq<nat>)
    requires Observed(seen, versions, times) && seen != []
    ensures Changes(seen) <= Changes(versions[..times[|times|-1]+1])
  {
    var n := |seen| - 1;
    if n > 0 {
      ObservedChanges(seen[..n], versions, times[..n]);
      ChangesTo(versions, times[n-1], times[n]);
    }
  }

  /** MAIN RESULT: against a server whose schema changes at most k times from the version the first attempt used, a
      write is tried at most k + 2 times. */
  lemma AttemptsBounded(seen: seq<Timestamp>, failedFetch: bool, tries: seq<Try>,
                        versions: seq<Timestamp>, times: seq<nat>, k: nat)
    requires |seen| <= |tries| && RetriedOnChange(seen, failedFetch, tries)
    requires Observed(seen, versions, times) && Changes(versions) <= k
    ensures |seen| + (if failedFetch then 1 else 0) <= k + 2
  {
    var n := if failedFetch then |seen| else |seen| - 1;
    if n >= 1 {
      forall i | 1 <= i < n
        ensures seen[i] != seen[i-1]
      {
        assert Retried(seen, tries, i);
      }
      var front := seen[..n];
      AllDifferent(front);
      assert Observed(front, versions, times[..n]);
      ObservedChanges(front, versions, times[..n]);
      ChangesUpTo(versions, times[n-1] + 1);
    }
  }

  lemma ChangesUpTo(versions: seq<Timestamp>, i: nat)
    requires 1 <= i <= |versions|
    ensures Changes(versions[..i]) <= Changes(versions)
  {
    ChangesTo(versions, i - 1, |versions| - 1);
    assert versions[..|versions|] == versions;
  }
}
