# QR code lifecycle, modelled in Dafny

The application issues QR codes. Each code points to a stored payload, may be
scanned a limited number of times, and expires after a set number of minutes.
This project models the lifecycle of one code record in the `qr_codes` table:

- `Registry` (`registry.dfy`): the record, the table as `map<Id, Record>`, and
  the two operations.
  - `Create` is the record-building part of `generate_qr`.
  - `Resolve` is the decision and update logic of `scan_qr`. It checks, in
    this order: missing, inactive, expired, limit exceeded, accepted.
- `Lifecycle` (`lifecycle.dfy`): sequences of scans (`Run`), with what they
  guarantee.
  - The record invariants hold across any run.
  - An inactive code is frozen.
  - The counter equals the number of accepted scans.
  - A fresh code accepts at most its ceiling of scans.
  - Scanned before expiry, a fresh code with ceiling N accepts exactly N
    scans, then one scan is exhausted, and every later scan is inactive.
- `Interleaving` (`interleaving.dfy`): the scan handler split into its read
  phase and its write phase, as the application executes it. This exposes the
  lost update described under Findings.

The clock is an integer count of minutes, passed in as `now`. The random id
is passed in as a parameter too. `Create` requires the id to be absent from
the table, which stands for the uniqueness of a random UUID. `Resolve` is one
atomic step.

Two behaviours of the code worth noting:

- Repeated scans of a code that is already inactive report "inactive"
  (app.py:72-73). They do not repeat the reason, expired or exhausted, that
  first deactivated it. `Lifecycle.InactiveIsFrozen` states this.
- The ceiling and the validity period are not validated (app.py:35-36), so
  there is no invalid-input error. A ceiling of 0 or less makes the first
  unexpired scan exhausted. A negative validity period makes a first scan at
  or after creation expired. A scan whose wall-clock reading has stepped back
  to or before the expiry time is still accepted when the ceiling is positive. `Lifecycle.FirstScanOfFreshCode` states all
  these cases, for any clock reading.

## Model

| member | source | states |
|---|---|---|
| Registry.Create | app.py:38-46 | the new record holds the given data and ceiling, a counter of 0, the active flag, and an expiry of now plus the validity minutes; it satisfies the accounting invariant; every other record is unchanged and only the new id is added |
| Registry.Resolve | app.py:63-89 | each outcome happens exactly when its branch is the first that applies: missing, inactive, expired (strictly after the expiry time, and ahead of exhaustion), exhausted, accepted; missing and inactive change nothing; expired and exhausted clear only the active flag; accepted raises only the counter, by one, and reports the payload, the new count, and a remainder that is at least 0 and adds up with the count to the ceiling; no other record changes; the record only evolves (immutable fields kept, counter not lowered, never reactivated) and keeps the accounting invariant |
| Lifecycle.Run | app.py:72-89 | over any sequence of scans of any codes, one outcome per request, the same ids, every record evolves (counter non-decreasing, never reactivated, payload, ceiling and expiry fixed) and a table whose records satisfy the accounting invariant keeps satisfying it |
| Lifecycle.InactiveIsFrozen | app.py:72-73 | an inactive record is never changed by any sequence of scans, and every scan of it reports inactive, never expired or exhausted again |
| Lifecycle.ScanAccounting | app.py:85-89 | after any sequence of scans a record's counter equals its starting value plus the number of accepted scans of that code |
| Lifecycle.RunKeepsRecordConsistent | app.py:80-86 | a record whose counter lies between 0 and its budget stays in that range across any sequence of scans |
| Lifecycle.AcceptedWithinBudget | app.py:38-86 | a freshly created code accepts at most max(ceiling, 0) scans over any sequence of scans at any times |
| Lifecycle.RunFollowsSchedule | app.py:72-89 | scanned before expiry, an active code with c of N scans used yields exactly N-c accepted scans with counts c+1..N and remainders N-c-1..0, then one exhausted scan, then only inactive scans |
| Lifecycle.FreshCodeLifecycle | app.py:38-89 | a fresh code with ceiling N >= 0 scanned before expiry accepts scans 1..N with remainders N-1..0, reports scan N+1 as exhausted and every later scan as inactive |
| Lifecycle.FirstScanOfFreshCode | app.py:39-89 | the first scan of a fresh code, at any clock reading (including one earlier than the creation time), is expired if it comes after the expiry time, otherwise exhausted if the ceiling is not positive, otherwise accepted with count 1 and remainder ceiling minus 1 |
| Lifecycle.HelloExample | app.py:38-89 | a code for "hello" with ceiling 2 and 60 minutes gives accepted (1, 1), accepted (2, 0), then exhausted |
| Interleaving.Decide | app.py:63-85 | the read phase, written on the row's fields alone (missing, not active, now after the expiry, count at or above the ceiling, else count plus one), decides for every table, id and time the same outcome the atomic `Resolve` reports |
| Interleaving.Commit | app.py:76-86 | the write phase clears the active flag for an expired or exhausted scan and overwrites the counter with the value read plus one for an accepted scan, touching no other record |
| Interleaving.SequentialScanIsResolve | app.py:63-87 | the read phase followed directly by its write phase has the same effect as one atomic scan |
| Interleaving.LostUpdate | app.py:63-86 | two scans of a single-use code that both read before either writes are both accepted, while the counter ends at 1 and the code stays active |

## Left out

- HTTP routing, form parsing and the HTML responses (app.py:28-36, 54-57, 89). The outcome datatype stands for the page each branch renders.
- Rendering the QR image and saving it under `static/` (app.py:11, 49-52). This is a foreign library and the file system.
- The SQLite schema, connections and commits (app.py:13-26). The table is an abstract map.
- Generating the id with `uuid.uuid4()` (app.py:38). The id is a parameter, and `Create` requires it to be fresh. The primary-key error a duplicate id would raise is not modelled.
- Reading the clock, and writing and parsing ISO timestamps (app.py:39, 70, 75). Time is an integer count of minutes passed in by the caller. Sub-minute resolution and the `OverflowError` of a date outside the datetime range are not modelled.
- Integer width. Counters and ceilings are unbounded integers. SQLite's 64-bit limit on stored integers is not modelled. The counter never passes a non-negative ceiling, so it cannot overflow first.
- Concurrency beyond two interleaved scans. `Lifecycle` treats each scan as atomic, and `Interleaving` states only the lost update that the separate read and write allow.

## Findings

| source | as written | input that shows it | evidently intended | confidence | as-written member | corrected member |
|---|---|---|---|---|---|---|
| app.py:63-86 | the scan reads the row, and writes the new counter later in a separate, unconditional UPDATE computed from that read | two scans of a code with `max_scans = 1` whose reads both happen before either write | at most `max_scans` accepted scans per code, with each accepted scan counted | high; not executed | Interleaving.LostUpdate | Lifecycle.AcceptedWithinBudget |
