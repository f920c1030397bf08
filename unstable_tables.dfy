/** The table-driven scenarios of the unstable log's test suite, run against
    the model: each row builds a buffer with the constructor and direct field
    assignments, checks the invariant, applies the operation under test and
    asserts the expected outcome. */
module UnstableTables {
  import opened LogEntries
  import opened RaftUnstable

  const snap41 := SnapshotMeta(4, 1)

  method MaybeFirstIndexRows()
  {
    var u := new Unstable(5);
    u.entries := IndexTerms(5, [1]);
    assert u.Invariants();
    assert u.MaybeFirstIndex() == (0, false);

    u := new Unstable(0);
    assert u.Invariants();
    assert u.MaybeFirstIndex() == (0, false);

    u := new Unstable(5);
    u.snapshot := Some(snap41);
    u.entries := IndexTerms(5, [1]);
    assert u.Invariants();
    assert u.MaybeFirstIndex() == (5, true);

    u := new Unstable(5);
    u.snapshot := Some(snap41);
    assert u.Invariants();
    assert u.MaybeFirstIndex() == (5, true);
  }

  method MaybeLastIndexRows()
  {
    var u := new Unstable(5);
    u.entries := IndexTerms(5, [1]);
    assert u.Invariants();
    assert u.MaybeLastIndex() == (5, true);

    u := new Unstable(5);
    u.snapshot := Some(snap41);
    u.entries := IndexTerms(5, [1]);
    assert u.Invariants();
    assert u.MaybeLastIndex() == (5, true);

    u := new Unstable(5);
    u.snapshot := Some(snap41);
    assert u.Invariants();
    assert u.MaybeLastIndex() == (4, true);

    u := new Unstable(0);
    assert u.Invariants();
    assert u.MaybeLastIndex() == (0, false);
  }

  method MaybeTermRows()
  {
    var u := new Unstable(5);
    u.entries := IndexTerms(5, [1]);
    assert u.Invariants();
    assert u.MaybeTerm(5) == (1, true);
    assert u.MaybeTerm(6) == (0, false);
    assert u.MaybeTerm(4) == (0, false);

    u.snapshot := Some(snap41);
    assert u.Invariants();
    assert u.MaybeTerm(5) == (1, true);
    assert u.MaybeTerm(6) == (0, false);
    assert u.MaybeTerm(4) == (1, true);
    assert u.MaybeTerm(3) == (0, false);

    u := new Unstable(5);
    u.snapshot := Some(snap41);
    assert u.Invariants();
    assert u.MaybeTerm(5) == (0, false);
    assert u.MaybeTerm(4) == (1, true);

    u := new Unstable(0);
    assert u.Invariants();
    assert u.MaybeTerm(5) == (0, false);
  }

  method RestoreRow()
  {
    var u := new Unstable(5);
    u.entries := IndexTerms(5, [1]);
    u.offsetInProgress := 6;
    u.snapshot := Some(snap41);
    u.snapshotInProgress := true;
    assert u.Valid();

    var s := SnapshotMeta(6, 2);
    u.Restore(s);
    assert u.Invariants();
    assert u.offset == 7 && u.offsetInProgress == 7;
    assert |u.entries| == 0 && u.snapshot == Some(s) && !u.snapshotInProgress;
  }

  method NextEntriesRows()
  {
    var u := new Unstable(5);
    u.entries := IndexTerms(5, [1, 1]);
    assert u.Valid();
    assert u.NextEntries() == Some(IndexTerms(5, [1, 1]));

    u.offsetInProgress := 6;
    assert u.Valid();
    assert u.entries[1..] == IndexTerms(6, [1]);
    assert u.NextEntries() == Some(IndexTerms(6, [1]));

    u.offsetInProgress := 7;
    assert u.Valid();
    assert u.NextEntries() == None;
  }

  method NextSnapshotRows()
  {
    var u := new Unstable(0);
    assert u.Invariants();
    assert u.NextSnapshot() == None;

    u := new Unstable(5);
    u.snapshot := Some(snap41);
    assert u.Invariants();
    assert u.NextSnapshot() == Some(snap41);

    u.snapshotInProgress := true;
    assert u.Invariants();
    assert u.NextSnapshot() == None;
  }

  /** One row of the accept-in-progress table. */
  method AcceptInProgressRow(ents: seq<Entry>, snap: Option<SnapshotMeta>, offset: nat,
                             inProgress: nat, snapInProgress: bool,
                             wantInProgress: nat, wantSnapInProgress: bool)
    requires Consecutive(ents, offset) && offset <= inProgress <= offset + |ents|
    requires snap.Some? ==> offset == snap.value.index + 1
    requires snap.None? ==> !snapInProgress
    requires inProgress > offset && snap.Some? ==> snapInProgress
    requires wantInProgress == offset + |ents| && wantSnapInProgress == snap.Some?
  {
    var u := new Unstable(offset);
    u.snapshot := snap;
    u.entries := ents;
    u.snapshotInProgress := snapInProgress;
    u.offsetInProgress := inProgress;
    assert u.Valid();

    u.AcceptInProgress();
    assert u.Invariants();
    assert u.offsetInProgress == wantInProgress;
    assert u.snapshotInProgress == wantSnapInProgress;
  }

  method AcceptInProgressRows()
  {
    AcceptInProgressRow([], None, 5, 5, false, 5, false);
    AcceptInProgressRow(IndexTerms(5, [1]), None, 5, 5, false, 6, false);
    AcceptInProgressRow(IndexTerms(5, [1, 1]), None, 5, 5, false, 7, false);
    AcceptInProgressRow(IndexTerms(5, [1, 1]), None, 5, 6, false, 7, false);
    AcceptInProgressRow(IndexTerms(5, [1, 1]), None, 5, 7, false, 7, false);
    AcceptInProgressRow([], Some(snap41), 5, 5, false, 5, true);
    AcceptInProgressRow(IndexTerms(5, [1]), Some(snap41), 5, 5, false, 6, true);
    AcceptInProgressRow(IndexTerms(5, [1, 1]), Some(snap41), 5, 5, false, 7, true);
    AcceptInProgressRow([], Some(snap41), 5, 5, true, 5, true);
    AcceptInProgressRow(IndexTerms(5, [1]), Some(snap41), 5, 5, true, 6, true);
    AcceptInProgressRow(IndexTerms(5, [1, 1]), Some(snap41), 5, 5, true, 7, true);
    AcceptInProgressRow(IndexTerms(5, [1, 1]), Some(snap41), 5, 6, true, 7, true);
    AcceptInProgressRow(IndexTerms(5, [1, 1]), Some(snap41), 5, 7, true, 7, true);
  }

  /** One row of the stable-to table: a snapshot that is in progress is
      acknowledged first, then the entry `(index, term)`. */
  method StableToRow(ents: seq<Entry>, offset: nat, inProgress: nat, snap: Option<SnapshotMeta>,
                     index: nat, term: nat, wantOffset: nat, wantInProgress: nat, wantLen: nat)
    requires Consecutive(ents, offset) && offset <= inProgress <= offset + |ents|
    requires snap.Some? ==> offset == snap.value.index + 1
    requires if offset <= index < inProgress && ents[index - offset].term == term
             then wantOffset == index + 1 && wantInProgress == inProgress && wantLen == |ents| - (index + 1 - offset)
             else wantOffset == offset && wantInProgress == inProgress && wantLen == |ents|
  {
    var u := new Unstable(offset);
    u.snapshot := snap;
    u.entries := ents;
    u.offsetInProgress := inProgress;
    u.snapshotInProgress := u.snapshot.Some? && u.offsetInProgress > u.offset;
    assert u.Valid();

    if u.snapshotInProgress {
      u.StableSnapTo(u.snapshot.value.index);
    }
    assert u.Invariants();
    ghost var matches := offset <= index < inProgress && ents[index - offset].term == term;
    assert u.Acknowledges(EntryId(index, term)) == matches;
    u.StableTo(EntryId(index, term));
    assert u.Invariants();
    assert u.offset == wantOffset;
    assert u.offsetInProgress == wantInProgress;
    assert |u.entries| == wantLen;
  }

  method StableToRows()
  {
    StableToRow([], 0, 0, None, 5, 1, 0, 0, 0);
    StableToRow(IndexTerms(5, [1]), 5, 6, None, 5, 1, 6, 6, 0);
    StableToRow(IndexTerms(5, [1, 1]), 5, 6, None, 5, 1, 6, 6, 1);
    StableToRow(IndexTerms(5, [1, 1]), 5, 7, None, 5, 1, 6, 7, 1);
    StableToRow(IndexTerms(6, [2]), 6, 7, None, 6, 1, 6, 7, 1);
    StableToRow(IndexTerms(5, [1]), 5, 6, None, 4, 1, 5, 6, 1);
    StableToRow(IndexTerms(5, [1]), 5, 6, None, 4, 2, 5, 6, 1);
    StableToRow(IndexTerms(5, [1]), 5, 6, Some(snap41), 5, 1, 6, 6, 0);
    StableToRow(IndexTerms(5, [1, 1]), 5, 6, Some(snap41), 5, 1, 6, 6, 1);
    StableToRow(IndexTerms(5, [1, 1]), 5, 7, Some(snap41), 5, 1, 6, 7, 1);
    StableToRow(IndexTerms(6, [2]), 6, 7, Some(SnapshotMeta(5, 1)), 6, 1, 6, 7, 1);
    StableToRow(IndexTerms(5, [1]), 5, 6, Some(snap41), 4, 1, 5, 6, 1);
    StableToRow(IndexTerms(5, [2]), 5, 6, Some(SnapshotMeta(4, 2)), 4, 1, 5, 6, 1);
  }

  /** One row of the truncate-and-append table, with no snapshot. */
  method TruncateAndAppendRow(ents: seq<Entry>, offset: nat, inProgress: nat, toAppend: seq<Entry>,
                              wantOffset: nat, wantInProgress: nat, wantEntries: seq<Entry>)
    requires Consecutive(ents, offset) && offset <= inProgress <= offset + |ents|
    requires |toAppend| > 0 && toAppend[0].index <= offset + |ents|
    requires Consecutive(toAppend, toAppend[0].index)
    requires wantOffset == Min(offset, toAppend[0].index)
    requires wantInProgress == Min(inProgress, toAppend[0].index)
    requires wantEntries ==
             ents[..if toAppend[0].index <= offset then 0 else toAppend[0].index - offset] + toAppend
  {
    var u := new Unstable(offset);
    u.entries := ents;
    u.offsetInProgress := inProgress;
    assert u.Valid();

    u.TruncateAndAppend(toAppend);
    assert u.Invariants();
    assert u.offset == wantOffset;
    assert u.offsetInProgress == wantInProgress;
    assert u.entries == wantEntries;
  }

  method TruncateAndAppendRows()
  {
    // append to the end
    TruncateAndAppendRow(IndexTerms(5, [1]), 5, 5, IndexTerms(6, [1, 1]), 5, 5, IndexTerms(5, [1, 1, 1]));
    TruncateAndAppendRow(IndexTerms(5, [1]), 5, 6, IndexTerms(6, [1, 1]), 5, 6, IndexTerms(5, [1, 1, 1]));
    // replace the unstable entries
    TruncateAndAppendRow(IndexTerms(5, [1]), 5, 5, IndexTerms(5, [2, 2]), 5, 5, IndexTerms(5, [2, 2]));
    TruncateAndAppendRow(IndexTerms(5, [1]), 5, 5, IndexTerms(4, [2, 2, 2]), 4, 4, IndexTerms(4, [2, 2, 2]));
    TruncateAndAppendRow(IndexTerms(5, [1]), 5, 6, IndexTerms(5, [2, 2]), 5, 5, IndexTerms(5, [2, 2]));
    // truncate the existing entries and append
    TruncateAndAppendRow(IndexTerms(5, [1, 1, 1]), 5, 5, IndexTerms(6, [2]), 5, 5, IndexTerms(5, [1, 2]));
    TruncateAndAppendRow(IndexTerms(5, [1, 1, 1]), 5, 5, IndexTerms(7, [2, 2]), 5, 5, IndexTerms(5, [1, 1, 2, 2]));
    TruncateAndAppendRow(IndexTerms(5, [1, 1, 1]), 5, 6, IndexTerms(6, [2]), 5, 6, IndexTerms(5, [1, 2]));
    TruncateAndAppendRow(IndexTerms(5, [1, 1, 1]), 5, 7, IndexTerms(6, [2]), 5, 6, IndexTerms(5, [1, 2]));
  }
}
