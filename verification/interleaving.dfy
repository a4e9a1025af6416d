/**
 The scan handler as the application actually executes it: it reads the row,
 decides, and only afterwards writes, in a separate statement that stores the
 counter it computed from its own read. Two scans of one code can therefore
 interleave between the read and the write. Each phase is modelled on its own
 so that interleavings can be stated.
 */
module Interleaving {
  import opened Registry

  /** A scan that has read its row and decided, but not yet written. */
  datatype Pending = Pending(id: Id, outcome: Outcome)

  /** Phase one: read the row of `id` and decide from its fields alone,
      without writing. An accepted scan carries the counter it will write. The
      decision agrees with the atomic `Resolve`. */
  function Decide(store: Store, id: Id, now: int): (p: Pending)
    ensures p.id == id
    ensures p.outcome == Resolve(store, id, now).outcome
  {
    if id !in store then Pending(id, NotFound)
    else
      var row := store[id];
      var outcome :=
        if !row.active then Inactive
        else if now > row.expiresAt then Expired
        else if row.scanCount >= row.maxScans then Exhausted
        else Accepted(row.data, row.scanCount + 1, row.maxScans - (row.scanCount + 1));
      Pending(id, outcome)
  }

  /** Phase two: the write a decided scan performs. An expired or exhausted
      scan clears the active flag; an accepted scan overwrites the counter with
      the value it computed from its read, whatever the row holds by now. */
  function Commit(store: Store, p: Pending): (r: Store)
    ensures r.Keys == store.Keys
    ensures forall k :: k in store && k != p.id ==> r[k] == store[k]
    ensures p.id in store && p.outcome.Accepted? ==>
      r[p.id] == store[p.id].(scanCount := p.outcome.count)
    ensures p.id in store && p.outcome in {Expired, Exhausted} ==>
      r[p.id] == store[p.id].(active := false)
    ensures p.outcome in {NotFound, Inactive} ==> r == store
  {
    if p.id !in store then store
    else
      match p.outcome
      case Expired => store[p.id := store[p.id].(active := false)]
      case Exhausted => store[p.id := store[p.id].(active := false)]
      case Accepted(_, count, _) => store[p.id := store[p.id].(scanCount := count)]
      case _ => store
  }

  /** Run back to back, with nothing in between, the two phases are exactly
      one atomic `Resolve`. */
  lemma SequentialScanIsResolve(store: Store, id: Id, now: int)
    ensures Commit(store, Decide(store, id, now)) == Resolve(store, id, now).store
  {
  }

  /** Lost update: two scans of a single-use code both read before either
      writes. Both are accepted, yet the counter ends at 1 and the code stays
      active, so the budget of one scan was exceeded and one scan went
      unrecorded. */
  lemma LostUpdate(id: Id, now: int)
    ensures
      var store := map[id := Record("payload", 1, 0, now, true)];
      var first := Decide(store, id, now);
      var second := Decide(store, id, now);
      var after := Commit(Commit(store, first), second);
      && first.outcome.Accepted?
      && second.outcome.Accepted?
      && after[id].scanCount == 1
      && after[id].active
  {
  }
}
