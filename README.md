# Raft unstable log, modelled in Dafny

This project models the **unstable log** of the Raft library (`unstable` in
package `raft`). The unstable log is the in-memory staging area for log
entries, and at most one snapshot, that a replica has accepted but that are
not yet durable. It keeps five fields:

- `entries`: the entries, each reduced to its index and term;
- `offset`: the index of `entries[0]`;
- `offsetInProgress`: one past the last entry already handed to storage;
- `snapshot`: an optional pending snapshot, reduced to its index and term;
- `snapshotInProgress`: whether that snapshot has been handed to storage.

Files:

- `entries.dfy` (module `LogEntries`): the value types; the predicate
  `Consecutive` ("these entries occupy `from`, `from + 1`, … with no gap");
  the test fixture `index(n).terms(...)` as `IndexTerms`; and `FindTerm`, a
  reference term lookup that scans from the front.
- `unstable.dfy` (module `RaftUnstable`): the class `Unstable` with the five
  fields. The queries are functions that read the fields. The mutators are
  methods that update the fields in place. `Invariants()` is the five-clause
  check of `pkg/raft/log_unstable_test.go:28-43`. `Valid()` adds that the
  entries have no gap.
- `unstable_tables.dfy` (module `UnstableTables`): each test table as a
  client method, one scenario per row. Each builds a buffer with the
  constructor and direct field writes, asserts `Invariants()`, applies the
  operation and asserts the expected values of the row.

The implementation file `pkg/raft/log_unstable.go` is not part of this model.
The behaviour follows the test tables, cited below, and the documented design
of the buffer. Where the two could differ, that design is followed:

- `MaybeTerm` looks in the entries first and then at the snapshot. The order
  only matters for states that break the invariant.
- `AcceptInProgress` sets `offsetInProgress` to `offset + |entries|`. When the
  entries have no gap, this is also one past the last entry's index.
- `StableTo` ignores an acknowledgment at or beyond `offsetInProgress`, as
  protocol misuse. Because of that guard, the rule "raise `offsetInProgress`
  to the new `offset`" never changes anything. `StableTo` keeps the `Max` in
  its body but promises that `offsetInProgress` is unchanged.

## Model

| member | source | states |
|---|---|---|
| RaftUnstable.Unstable.constructor | pkg/raft/log_unstable_test.go:76 | `newUnstable(offset)`. The buffer starts empty, with both cursors at `offset`, no snapshot, and `Valid()` true. |
| RaftUnstable.Unstable.MaybeFirstIndex | pkg/raft/log_unstable_test.go:45-86 | Present iff a snapshot is held, and `(0, false)` otherwise. On a valid buffer, the index is `offset`, where the entries begin. |
| RaftUnstable.Unstable.MaybeLastIndex | pkg/raft/log_unstable_test.go:88-130 | Present iff there are entries or a snapshot, and `(0, false)` otherwise. On a valid buffer it is one below `offset + |entries|`, and it is the last entry's own index when there are entries. |
| RaftUnstable.Unstable.MaybeTerm | pkg/raft/log_unstable_test.go:132-208 | `(0, false)` when absent. On a valid buffer, a term is known exactly for the indexes from the snapshot's index (or `offset` if no snapshot is held) up to the last index. Everything below that range and above it is unknown. |
| RaftUnstable.MaybeTermBySearch | pkg/raft/log_unstable_test.go:132-208 | On a valid buffer, `MaybeTerm(i)` equals a reference lookup: scan the entries for index `i`, and fall back to the snapshot. |
| LogEntries.FindTermConsecutive | pkg/raft/log_unstable_test.go:142-167 | On entries with no gap starting at `from`, the scan finds `i` exactly when `from <= i < from + len`, and then finds the entry at position `i - from`. |
| RaftUnstable.FirstIndexFollowsSnapshot | pkg/raft/log_unstable_test.go:168-188 | When a first index is known, the index just below it has the snapshot's term. |
| RaftUnstable.Unstable.NextEntries | pkg/raft/log_unstable_test.go:235-269 | `None` (not an empty batch) iff everything is in progress. Otherwise the batch is non-empty, starts at index `offsetInProgress`, and with the in-progress prefix makes up exactly `entries`. |
| RaftUnstable.Unstable.NextSnapshot | pkg/raft/log_unstable_test.go:271-306 | Returns the snapshot iff one is held and it is not in progress. While one is due, no entry is in progress. |
| RaftUnstable.Unstable.Restore | pkg/raft/log_unstable_test.go:210-233 | From any state: `offset == offsetInProgress == s.index + 1`, no entries, the snapshot is `s`, not in progress, and the buffer is valid. The first index, last index, term at `s.index` and next snapshot all come from `s`. |
| RaftUnstable.Unstable.AcceptInProgress | pkg/raft/log_unstable_test.go:308-415 | `offsetInProgress` becomes `offset + |entries|`, and `snapshotInProgress` becomes "a snapshot is held". Nothing else changes. Afterwards there is no next batch and no next snapshot. Called again, it changes nothing. |
| RaftUnstable.Unstable.StableTo | pkg/raft/log_unstable_test.go:417-517 | On an in-progress entry with a matching term, drops it and every entry before it and sets `offset` to its index + 1. `offsetInProgress` and the snapshot are kept. Any other call (stale, misused, term mismatch) is a no-op. Lookups above the acknowledged index and the next batch are never affected. |
| RaftUnstable.DroppedTerms | pkg/raft/log_unstable_test.go:435-447 | Dropping the first `n` entries and moving the offset by `n` keeps every lookup at or above the new offset. The last dropped index becomes unknown. |
| RaftUnstable.Unstable.StableSnapTo | pkg/raft/log_unstable_test.go:503-509 | At the snapshot's own index, clears the snapshot and its flag. Otherwise it is a no-op. It never touches the entries, the cursors or the next batch. |
| RaftUnstable.Unstable.TruncateAndAppend | pkg/raft/log_unstable_test.go:519-597 | Let `f` be the first new index. `offset` becomes `min(offset, f)` and `offsetInProgress` becomes `min(offsetInProgress, f)`. The entries become the old ones before `f`, then the new ones. That covers append, replace and truncate. Terms in `[offset, f)` are kept, the new entries are visible at their indexes, and nothing is known past them. |
| RaftUnstable.MergedTerms | pkg/raft/log_unstable_test.go:558-578 | The same three facts about the lookup, stated on plain values, for a prefix of the old entries followed by the new ones. |
| LogEntries.IndexTerms | pkg/raft/log_unstable_test.go:245-251 | The fixture `index(n).terms(...)` yields one entry per term. The entries have no gap from `n` and carry the given terms in order. |

## Left out

- The logger passed to `newUnstable`: it only produces diagnostics. The misuse paths it reports are silent no-ops here.
- Entry payloads, snapshot data and configuration, and the protobuf types: only index and term are kept.
- Storage durability, and detecting stale in-flight writes: these belong to the storage engine, which is outside the buffer.
- The tenant cost-client metrics file: all of it is metric registration on a foreign library, with no logic to state.
- Go's `uint64` width: indices are unbounded `nat`s, so `offset + len(entries)` and `index + 1` cannot wrap around.
- The nil-versus-empty distinction for `entries` itself: an empty buffer is `[]`. Only `NextEntries` keeps the distinction, through `Option`.
- RaftUnstable.Unstable.StableTo: requires that the caller acknowledge a pending snapshot before any entry after it. The test does this (lines 506-508). Otherwise, dropping an entry while a snapshot is held would break the clause `offset == snapshot.index + 1`.
- RaftUnstable.Unstable.TruncateAndAppend: requires non-empty new entries, with no gap among them, that start no later than `offset + len(entries)`. With a held snapshot, they must also start no earlier than `offset`. The Go code reads `ents[0]` and slices the old entries, so a caller outside these bounds cannot be served. Entries starting before a held snapshot would break the snapshot clause.
- The invariant checker `checkInvariants` is the predicate `Invariants()`. It has no contract of its own, so it has no row above. Every method requires and ensures it, as part of `Valid()`.
- The remaining test plumbing (`t.Run`, `require`) is left out. The rows of each table are the client methods in `unstable_tables.dfy`.
