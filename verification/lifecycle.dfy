/**
 Sequences of scans against the registry, and what they guarantee: the record
 invariants hold across any run, an inactive code is frozen, every accepted
 scan is counted exactly once, and a fresh code accepts exactly its ceiling
 of scans before it is exhausted and then inactive for good.
 */
module Lifecycle {
  import opened Registry

  /** One scan request: which code, and the clock when it arrives. */
  datatype Request = Request(id: Id, now: int)

  /** The result of a run: the outcome of each request, in order, and the
      final table. */
  datatype Trace = Trace(outcomes: seq<Outcome>, store: Store)

  /** Applies the requests one after another, each as one atomic `Resolve`.
      Returns the outcome of each request and the final table. */
  function Run(store: Store, reqs: seq<Request>): (res: Trace)
    ensures |res.outcomes| == |reqs|
    ensures res.store.Keys == store.Keys
    ensures forall k :: k in store ==> Evolves(store[k], res.store[k])
    ensures StoreConsistent(store) ==> StoreConsistent(res.store)
    decreases |reqs|
  {
    if |reqs| == 0 then
      Trace([], store)
    else
      var step := Resolve(store, reqs[0].id, reqs[0].now);
      var rest := Run(step.store, reqs[1..]);
      Trace([step.outcome] + rest.outcomes, rest.store)
  }

  /** How many of the outcomes are accepted scans of `id`. */
  function AcceptedOf(reqs: seq<Request>, outs: seq<Outcome>, id: Id): nat
    requires |outs| == |reqs|
  {
    if |reqs| == 0 then 0
    else (if reqs[0].id == id && outs[0].Accepted? then 1 else 0)
         + AcceptedOf(reqs[1..], outs[1..], id)
  }

  /** Once a record is inactive, no request changes it and every request for
      it reports `Inactive`, never again `Expired` or `Exhausted`. */
  lemma {:induction false} InactiveIsFrozen(store: Store, reqs: seq<Request>, id: Id)
    requires id in store && !store[id].active
    ensures Run(store, reqs).store[id] == store[id]
    ensures forall i :: 0 <= i < |reqs| && reqs[i].id == id ==> Run(store, reqs).outcomes[i] == Inactive
    decreases |reqs|
  {
    if |reqs| > 0 {
      var step := Resolve(store, reqs[0].id, reqs[0].now);
      assert step.store[id] == store[id];
      InactiveIsFrozen(step.store, reqs[1..], id);
      var outs := Run(store, reqs).outcomes;
      forall i | 0 <= i < |reqs| && reqs[i].id == id
        ensures outs[i] == Inactive
      {
        if i > 0 {
          assert outs[i] == Run(step.store, reqs[1..]).outcomes[i - 1];
          assert reqs[1..][i - 1] == reqs[i];
        }
      }
    }
  }

  /** The counter of a record grows by exactly the number of accepted scans of
      it: no accepted scan is lost and none is counted twice. */
  lemma {:induction false} ScanAccounting(store: Store, reqs: seq<Request>, id: Id)
    requires id in store
    ensures Run(store, reqs).store[id].scanCount
         == store[id].scanCount + AcceptedOf(reqs, Run(store, reqs).outcomes, id)
    decreases |reqs|
  {
    if |reqs| > 0 {
      var step := Resolve(store, reqs[0].id, reqs[0].now);
      var rest := Run(step.store, reqs[1..]);
      ScanAccounting(step.store, reqs[1..], id);
      var outs := Run(store, reqs).outcomes;
      assert outs[1..] == rest.outcomes;
      assert outs[0] == step.outcome;
    }
  }

  /** Safety of the scan budget: starting from a freshly created code, any run
      of requests, at any times and interleaved with scans of other codes,
      accepts at most `maxScans` scans of it (none when the ceiling is not
      positive). */
  lemma AcceptedWithinBudget(store: Store, id: Id, data: string, maxScans: int,
                             minutesValid: int, now: int, reqs: seq<Request>)
    requires id !in store
    ensures AcceptedOf(reqs, Run(Create(store, id, data, maxScans, minutesValid, now), reqs).outcomes, id)
         <= Budget(maxScans)
  {
    var created := Create(store, id, data, maxScans, minutesValid, now);
    ScanAccounting(created, reqs, id);
    RunKeepsRecordConsistent(created, reqs, id);
  }

  /** The accounting invariant of one record survives any run. */
  lemma {:induction false} RunKeepsRecordConsistent(store: Store, reqs: seq<Request>, id: Id)
    requires id in store && Consistent(store[id])
    ensures Consistent(Run(store, reqs).store[id])
    decreases |reqs|
  {
    if |reqs| > 0 {
      var step := Resolve(store, reqs[0].id, reqs[0].now);
      RunKeepsRecordConsistent(step.store, reqs[1..], id);
    }
  }

  /** The reference schedule of a code that has used `used` of `limit` scans:
      the remaining scans are accepted with the counter counting up and the
      remainder counting down to 0, the next scan is exhausted, and every
      later one finds the code inactive. */
  function Schedule(data: string, limit: int, used: int, i: nat): Outcome
  {
    if i < limit - used then Accepted(data, used + i + 1, limit - used - i - 1)
    else if i == limit - used then Exhausted
    else Inactive
  }

  /** A run of scans of one active, consistent code, all before it expires,
      follows `Schedule` exactly. */
  lemma {:induction false} RunFollowsSchedule(store: Store, id: Id, reqs: seq<Request>)
    requires id in store && store[id].active
    requires 0 <= store[id].scanCount <= store[id].maxScans
    requires forall i :: 0 <= i < |reqs| ==> reqs[i].id == id && reqs[i].now <= store[id].expiresAt
    ensures forall i :: 0 <= i < |reqs| ==>
      Run(store, reqs).outcomes[i]
        == Schedule(store[id].data, store[id].maxScans, store[id].scanCount, i)
    decreases |reqs|
  {
    if |reqs| > 0 {
      var rec := store[id];
      var step := Resolve(store, id, reqs[0].now);
      var outs := Run(store, reqs).outcomes;
      var rest := Run(step.store, reqs[1..]);
      assert outs[1..] == rest.outcomes;
      if rec.scanCount < rec.maxScans {
        assert step.store[id] == rec.(scanCount := rec.scanCount + 1);
        RunFollowsSchedule(step.store, id, reqs[1..]);
        forall i | 0 <= i < |reqs|
          ensures outs[i] == Schedule(rec.data, rec.maxScans, rec.scanCount, i)
        {
          if i > 0 {
            assert outs[i] == rest.outcomes[i - 1];
          }
        }
      } else {
        assert step.outcome == Exhausted;
        InactiveIsFrozen(step.store, reqs[1..], id);
        forall i | 0 <= i < |reqs|
          ensures outs[i] == Schedule(rec.data, rec.maxScans, rec.scanCount, i)
        {
          if i > 0 {
            assert outs[i] == rest.outcomes[i - 1];
            assert reqs[1..][i - 1] == reqs[i];
          }
        }
      }
    }
  }

  /** The whole life of a fresh code with ceiling `n >= 0` scanned before it
      expires: scans 1..n are accepted with remaining n-1, ..., 0, scan n+1 is
      exhausted, and every later scan reports inactive. */
  lemma {:induction false} FreshCodeLifecycle(store: Store, id: Id, data: string, n: int,
                                           minutesValid: int, now: int, reqs: seq<Request>)
    requires id !in store && 0 <= n
    requires forall i :: 0 <= i < |reqs| ==> reqs[i].id == id && reqs[i].now <= now + minutesValid
    ensures forall i :: 0 <= i < |reqs| ==>
      Run(Create(store, id, data, n, minutesValid, now), reqs).outcomes[i]
        == (if i < n then Accepted(data, i + 1, n - i - 1)
            else if i == n then Exhausted
            else Inactive)
  {
    var created := Create(store, id, data, n, minutesValid, now);
    RunFollowsSchedule(created, id, reqs);
  }

  /** The first scan of a freshly created code, read at any clock value
      `scanAt` (the wall clock may even have stepped back since creation), is
      accepted exactly when the code has not yet expired and its ceiling is
      positive; expiry is reported ahead of a non-positive ceiling. */
  lemma FirstScanOfFreshCode(store: Store, id: Id, data: string, maxScans: int,
                             minutesValid: int, now: int, scanAt: int)
    requires id !in store
    ensures Resolve(Create(store, id, data, maxScans, minutesValid, now), id, scanAt).outcome
         == (if scanAt > now + minutesValid then Expired
             else if maxScans <= 0 then Exhausted
             else Accepted(data, 1, maxScans - 1))
  {
  }

  /** The worked example: a code for "hello" with two scans and an hour of
      validity accepts two scans and reports the third as exhausted. */
  lemma HelloExample(store: Store, id: Id)
    requires id !in store
    ensures Run(Create(store, id, "hello", 2, 60, 0),
                [Request(id, 1), Request(id, 2), Request(id, 3)]).outcomes
         == [Accepted("hello", 1, 1), Accepted("hello", 2, 0), Exhausted]
  {
    var reqs := [Request(id, 1), Request(id, 2), Request(id, 3)];
    FreshCodeLifecycle(store, id, "hello", 2, 60, 0, reqs);
  }
}
