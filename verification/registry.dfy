/**
 The code registry: one table of QR code records keyed by id, and the two
 operations on it. `Create` stores a freshly generated code; `Resolve` is the
 decision procedure a scan runs against the stored record, in a fixed order:
 missing, inactive, expired, exhausted, accepted.

 The clock is an integer number of minutes passed in as `now`; the id that the
 application draws at random is passed in as well.
 */
module Registry {

  type Id = string

  /** One row of the code table. `active` is the persisted flag that a scan
      clears once it observes expiry or exhaustion. */
  datatype Record = Record(
    data: string,
    maxScans: int,
    scanCount: int,
    expiresAt: int,
    active: bool
  )

  type Store = map<Id, Record>

  /** What a scan reports. `Accepted` carries the payload, the scan count after
      this scan and the scans still left. */
  datatype Outcome =
    | NotFound
    | Inactive
    | Expired
    | Exhausted
    | Accepted(data: string, count: int, remaining: int)

  /** The result of one scan: what it reports and the table it leaves. */
  datatype Scanned = Scanned(outcome: Outcome, store: Store)

  /** Expiry is a strict comparison: at `now == expiresAt` the code is still valid. */
  predicate IsExpired(rec: Record, now: int)
  {
    now > rec.expiresAt
  }

  predicate IsExhausted(rec: Record)
  {
    rec.scanCount >= rec.maxScans
  }

  /** The number of scans a record can ever accept: its ceiling, or none at all
      when the ceiling was entered as a negative number. */
  function Budget(maxScans: int): nat
  {
    if maxScans < 0 then 0 else maxScans
  }

  /** The accounting invariant of a record: the counter never went below zero
      and never passed the budget. */
  ghost predicate Consistent(rec: Record)
  {
    0 <= rec.scanCount <= Budget(rec.maxScans)
  }

  ghost predicate StoreConsistent(store: Store)
  {
    forall k :: k in store ==> Consistent(store[k])
  }

  /** `after` is a state the record `before` may move to: payload, ceiling and
      expiry are immutable, the counter does not decrease, and an inactive
      record is never reactivated. */
  ghost predicate Evolves(before: Record, after: Record)
  {
    && after.data == before.data
    && after.maxScans == before.maxScans
    && after.expiresAt == before.expiresAt
    && before.scanCount <= after.scanCount
    && (after.active ==> before.active)
  }

  /** Stores a new code under a fresh id, valid for `minutesValid` minutes from
      `now`. Neither the ceiling nor the validity period is checked. */
  function Create(store: Store, id: Id, data: string, maxScans: int, minutesValid: int, now: int): (r: Store)
    requires id !in store
    ensures r.Keys == store.Keys + {id}
    ensures forall k :: k in store ==> r[k] == store[k]
    ensures r[id].data == data && r[id].maxScans == maxScans
    ensures r[id].scanCount == 0 && r[id].active
    ensures r[id].expiresAt == now + minutesValid
    ensures Consistent(r[id])
    ensures StoreConsistent(store) ==> StoreConsistent(r)
  {
    store[id := Record(data, maxScans, 0, now + minutesValid, true)]
  }

  /** One scan of `id` at time `now`, executed as a single atomic step.
      Returns the outcome and the table after the scan. */
  function Resolve(store: Store, id: Id, now: int): (res: Scanned)
    // no record other than `id` is touched, and no record appears or vanishes
    ensures res.store.Keys == store.Keys
    ensures forall k :: k in store && k != id ==> res.store[k] == store[k]
    // the outcome, in the order the scan handler checks them
    ensures res.outcome == NotFound <==> id !in store
    ensures res.outcome == Inactive <==> id in store && !store[id].active
    ensures res.outcome == Expired <==>
      id in store && store[id].active && IsExpired(store[id], now)
    ensures res.outcome == Exhausted <==>
      id in store && store[id].active && !IsExpired(store[id], now) && IsExhausted(store[id])
    ensures res.outcome.Accepted? <==>
      id in store && store[id].active && !IsExpired(store[id], now) && !IsExhausted(store[id])
    // the effect on the record
    ensures res.outcome in {NotFound, Inactive} ==> res.store == store
    ensures res.outcome in {Expired, Exhausted} ==> res.store[id] == store[id].(active := false)
    ensures res.outcome.Accepted? ==>
      && res.store[id] == store[id].(scanCount := store[id].scanCount + 1)
      && res.outcome.data == store[id].data
      && res.outcome.count == res.store[id].scanCount
      && res.outcome.count + res.outcome.remaining == store[id].maxScans
      && res.outcome.remaining >= 0
    ensures id in store ==> Evolves(store[id], res.store[id])
    ensures id in store && Consistent(store[id]) ==> Consistent(res.store[id])
  {
    if id !in store then
      Scanned(NotFound, store)
    else
      var rec := store[id];
      if !rec.active then
        Scanned(Inactive, store)
      else if IsExpired(rec, now) then
        Scanned(Expired, store[id := rec.(active := false)])
      else if IsExhausted(rec) then
        Scanned(Exhausted, store[id := rec.(active := false)])
      else
        var count := rec.scanCount + 1;
        Scanned(Accepted(rec.data, count, rec.maxScans - count), store[id := rec.(scanCount := count)])
  }
}
