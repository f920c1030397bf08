/** The unstable log of a Raft replica: log entries, and at most one snapshot,
    that have been accepted but are not yet durable, together with the cursors
    that say which of them have already been handed to storage. */
module RaftUnstable {
  import opened LogEntries

  function Min(a: nat, b: nat): nat { if a <= b then a else b }
  function Max(a: nat, b: nat): nat { if a >= b then a else b }

  /** The term lookup over the fields of the buffer: from `es` when `i` lies
      in their range starting at `off`, else from `snap` when `i` is its
      index. */
  function TermAt(es: seq<Entry>, off: nat, snap: Option<SnapshotMeta>, i: nat): (nat, bool)
  {
    if off <= i < off + |es| then (es[i - off].term, true)
    else if snap.Some? && i == snap.value.index then (snap.value.term, true)
    else (0, false)
  }

  /** How the lookup sees a merge: indexes in `[off, from)` keep their terms,
      the new entries are visible at their own indexes, and nothing is known
      past them. */
  lemma MergedTerms(es: seq<Entry>, off: nat, snap: Option<SnapshotMeta>, ents: seq<Entry>,
                    kept: nat, merged: seq<Entry>, newOff: nat)
    requires |ents| > 0 && kept <= |es| && merged == es[..kept] + ents
    requires ents[0].index == newOff + kept
    requires newOff <= off && (kept > 0 ==> newOff == off)
    requires snap.Some? ==> snap.value.index < newOff
    ensures forall j :: off <= j < ents[0].index ==> TermAt(merged, newOff, snap, j) == TermAt(es, off, snap, j)
    ensures forall j :: ents[0].index <= j < ents[0].index + |ents| ==>
              TermAt(merged, newOff, snap, j) == (ents[j - ents[0].index].term, true)
    ensures forall j :: ents[0].index + |ents| <= j ==> !TermAt(merged, newOff, snap, j).1
  {
    forall j | ents[0].index <= j < ents[0].index + |ents|
      ensures TermAt(merged, newOff, snap, j) == (ents[j - ents[0].index].term, true)
    {
      assert merged[j - newOff] == ents[j - ents[0].index];
    }
    forall j | off <= j < ents[0].index
      ensures TermAt(merged, newOff, snap, j) == TermAt(es, off, snap, j)
    {
      assert merged[j - off] == es[j - off];
    }
  }

  /** How the lookup sees the first `n` entries being dropped, with no
      snapshot held: every index from `off + n` on keeps its term, and the
      last dropped index is no longer known. */
  lemma DroppedTerms(es: seq<Entry>, off: nat, n: nat)
    requires 0 < n <= |es|
    ensures forall j :: off + n <= j ==> TermAt(es[n..], off + n, None, j) == TermAt(es, off, None, j)
    ensures !TermAt(es[n..], off + n, None, off + n - 1).1
  {
    forall j | off + n <= j
      ensures TermAt(es[n..], off + n, None, j) == TermAt(es, off, None, j)
    {
      if j < off + |es| {
        assert es[n..][j - (off + n)] == es[j - off];
      }
    }
  }

  class Unstable {
    /** Entries not yet durable; `entries[0]` sits at index `offset`. */
    var entries: seq<Entry>
    /** Index of `entries[0]`, or the index the next entry will take. */
    var offset: nat
    /** One past the last entry already handed to storage. */
    var offsetInProgress: nat
    /** A snapshot not yet durable, if any. */
    var snapshot: Option<SnapshotMeta>
    /** The pending snapshot has been handed to storage. */
    var snapshotInProgress: bool

    /** The five clauses of the test suite's invariant check. */
    ghost predicate Invariants()
      reads this
    {
      && offset <= offsetInProgress <= offset + |entries|
      && (snapshot.Some? ==> offset == snapshot.value.index + 1)
      && (snapshot.None? ==> !snapshotInProgress)
      && (|entries| > 0 ==> entries[0].index == offset)
      && (offsetInProgress > offset && snapshot.Some? ==> snapshotInProgress)
    }

    /** The entries occupy `offset, offset + 1, ...` with no gap. */
    ghost predicate Contiguous()
      reads this
    {
      Consecutive(entries, offset)
    }

    /** What every operation keeps: the five clauses, and entries without
        gaps (which the fourth clause alone does not survive `StableTo`). */
    ghost predicate Valid()
      reads this
    {
      Invariants() && Contiguous()
    }

    /** `id` names an entry that is in progress and still held with the same
        term, so that acknowledging it has an effect. */
    ghost predicate Acknowledges(id: EntryId)
      reads this
    {
      offset <= id.index < offsetInProgress && MaybeTerm(id.index) == (id.term, true)
    }

    /** Everything held has been handed to storage. */
    ghost predicate AllInProgress()
      reads this
    {
      offsetInProgress == offset + |entries| && snapshotInProgress == snapshot.Some?
    }

    /** An empty buffer whose next entry will take index `offset0`. */
    constructor (offset0: nat)
      ensures Valid()
      ensures entries == [] && offset == offset0 && offsetInProgress == offset0
      ensures snapshot == None && !snapshotInProgress
    {
      entries := [];
      offset := offset0;
      offsetInProgress := offset0;
      snapshot := None;
      snapshotInProgress := false;
    }

    /** The first index the buffer accounts for, known only once a snapshot
        sets a floor; `(0, false)` otherwise. */
    function MaybeFirstIndex(): (r: (nat, bool))
      reads this
      ensures r.1 <==> snapshot.Some?
      ensures !r.1 ==> r.0 == 0
      ensures Valid() && r.1 ==> r.0 == offset
    {
      if snapshot.Some? then (snapshot.value.index + 1, true) else (0, false)
    }

    /** The last index the buffer accounts for: that of the last entry, else
        the snapshot's; `(0, false)` when the buffer holds nothing. */
    function MaybeLastIndex(): (r: (nat, bool))
      reads this
      ensures r.1 <==> |entries| > 0 || snapshot.Some?
      ensures !r.1 ==> r.0 == 0
      ensures Valid() && r.1 ==> r.0 + 1 == offset + |entries|
      ensures Valid() && |entries| > 0 ==> r.0 == entries[|entries| - 1].index
    {
      if |entries| > 0 then (offset + |entries| - 1, true)
      else if snapshot.Some? then (snapshot.value.index, true)
      else (0, false)
    }

    /** The term at index `i`, if the buffer holds it: from the entries when
        `i` lies in their range, else from the snapshot when `i` is its
        index; `(0, false)` otherwise. */
    function MaybeTerm(i: nat): (r: (nat, bool))
      reads this
      ensures !r.1 ==> r.0 == 0
      ensures Valid() ==>
                (r.1 <==> (if snapshot.Some? then snapshot.value.index else offset) <= i < offset + |entries|)
    {
      TermAt(entries, offset, snapshot, i)
    }

    /** The entries not yet handed to storage, or `None` (not an empty
        batch) when there are none. */
    function NextEntries(): (r: Option<seq<Entry>>)
      reads this
      requires Valid()
      ensures r.None? <==> offsetInProgress == offset + |entries|
      ensures r.Some? ==> r.value != [] && entries == entries[..offsetInProgress - offset] + r.value
      ensures r.Some? ==> Consecutive(r.value, offsetInProgress)
    {
      var inProgress := offsetInProgress - offset;
      if |entries| == inProgress then None
      else
        ConsecutiveSuffix(entries, offset, inProgress);
        Some(entries[inProgress..])
    }

    /** The snapshot if it is held and not yet handed to storage. */
    function NextSnapshot(): (r: Option<SnapshotMeta>)
      reads this
      ensures r.Some? <==> snapshot.Some? && !snapshotInProgress
      ensures r.Some? ==> r == snapshot
      ensures Valid() && r.Some? ==> offsetInProgress == offset
    {
      if snapshot.None? || snapshotInProgress then None else snapshot
    }

    /** Installs `s` as the new origin of the log, discarding every entry and
        any earlier snapshot. */
    method Restore(s: SnapshotMeta)
      modifies this
      ensures Valid()
      ensures offset == s.index + 1 && offsetInProgress == s.index + 1
      ensures entries == [] && snapshot == Some(s) && !snapshotInProgress
      ensures MaybeFirstIndex() == (s.index + 1, true) && MaybeLastIndex() == (s.index, true)
      ensures MaybeTerm(s.index) == (s.term, true)
      ensures NextSnapshot() == Some(s) && NextEntries() == None
    {
      entries := [];
      offset := s.index + 1;
      offsetInProgress := offset;
      snapshot := Some(s);
      snapshotInProgress := false;
    }

    /** Marks everything held as handed to storage. */
    method AcceptInProgress()
      requires Valid()
      modifies this
      ensures Valid()
      ensures entries == old(entries) && offset == old(offset) && snapshot == old(snapshot)
      ensures offsetInProgress == offset + |entries|
      ensures snapshotInProgress == snapshot.Some?
      ensures AllInProgress() && NextEntries() == None && NextSnapshot() == None
      ensures old(AllInProgress()) ==>
                offsetInProgress == old(offsetInProgress) && snapshotInProgress == old(snapshotInProgress)
    {
      offsetInProgress := offset + |entries|;
      if snapshot.Some? {
        snapshotInProgress := true;
      }
    }

    /** Acknowledges that the entry `id` is durable, dropping it and every
        entry before it. Stale acknowledgments (below `offset`), ones that run
        ahead of what was handed to storage, and ones whose term no longer
        matches are ignored. The caller acknowledges a pending snapshot before
        any entry after it. */
    method StableTo(id: EntryId)
      requires Valid()
      requires Acknowledges(id) ==> snapshot.None?
      modifies this
      ensures Valid()
      ensures snapshot == old(snapshot) && snapshotInProgress == old(snapshotInProgress)
      ensures old(Acknowledges(id)) ==>
                && entries == old(entries[id.index + 1 - offset..])
                && offset == id.index + 1
                && offsetInProgress == old(offsetInProgress)
                && !MaybeTerm(id.index).1
      ensures !old(Acknowledges(id)) ==>
                entries == old(entries) && offset == old(offset) && offsetInProgress == old(offsetInProgress)
      ensures forall j :: id.index < j ==> MaybeTerm(j) == old(MaybeTerm(j))
      ensures NextEntries() == old(NextEntries())
    {
      // Stale (already dropped), never handed to storage (misuse), or
      // overwritten since: each is ignored.
      if id.index < offset || id.index >= offsetInProgress
         || entries[id.index - offset].term != id.term {
        return;
      }
      var pos := id.index - offset;
      DroppedTerms(entries, offset, pos + 1);
      ConsecutiveSuffix(entries, offset, pos + 1);
      ghost var next := NextEntries();
      ghost var pending := entries[offsetInProgress - offset..];
      assert entries[pos + 1..][offsetInProgress - (id.index + 1)..] == pending;
      entries, offset, offsetInProgress := entries[pos + 1..], id.index + 1, Max(offsetInProgress, id.index + 1);
      assert entries[offsetInProgress - offset..] == pending;
      assert next == if pending == [] then None else Some(pending);
    }

    /** Acknowledges that the snapshot at index `i` is durable; any other
        index is ignored. */
    method StableSnapTo(i: nat)
      requires Valid()
      modifies this
      ensures Valid()
      ensures entries == old(entries) && offset == old(offset) && offsetInProgress == old(offsetInProgress)
      ensures NextEntries() == old(NextEntries())
      ensures old(snapshot.Some? && snapshot.value.index == i) ==>
                snapshot == None && !snapshotInProgress && NextSnapshot() == None && !MaybeFirstIndex().1
      ensures !old(snapshot.Some? && snapshot.value.index == i) ==>
                snapshot == old(snapshot) && snapshotInProgress == old(snapshotInProgress)
    {
      if snapshot.Some? && snapshot.value.index == i {
        snapshot := None;
        snapshotInProgress := false;
      }
    }

    /** Merges `ents`, which start at index `ents[0].index`, into the buffer:
        appended when they start right after the last entry, replacing
        everything when they start at or before `offset`, and otherwise
        replacing the entries from their first index on. Entries from that
        index on are no longer in progress. */
    method TruncateAndAppend(ents: seq<Entry>)
      requires Valid()
      requires |ents| > 0 && ents[0].index <= offset + |entries|
      requires Consecutive(ents, ents[0].index)
      requires snapshot.Some? ==> offset <= ents[0].index
      modifies this
      ensures Valid()
      ensures snapshot == old(snapshot) && snapshotInProgress == old(snapshotInProgress)
      ensures offset == Min(old(offset), ents[0].index)
      ensures offsetInProgress == Min(old(offsetInProgress), ents[0].index)
      ensures entries == old(entries[..if ents[0].index <= offset then 0 else ents[0].index - offset]) + ents
      ensures MaybeLastIndex() == (ents[0].index + |ents| - 1, true)
      ensures forall j :: old(offset) <= j < ents[0].index ==> MaybeTerm(j) == old(MaybeTerm(j))
      ensures forall j :: ents[0].index <= j < ents[0].index + |ents| ==>
                MaybeTerm(j) == (ents[j - ents[0].index].term, true)
      ensures forall j :: ents[0].index + |ents| <= j ==> !MaybeTerm(j).1
    {
      var from := ents[0].index;
      var newEntries, newOffset, newInProgress;
      ghost var kept: nat;
      if from == offset + |entries| {
        // The new entries start right after the last one: append.
        kept := |entries|;
        newEntries, newOffset, newInProgress := entries + ents, offset, offsetInProgress;
        assert entries[..kept] == entries;
      } else if from <= offset {
        // The log is cut back to or before `offset`: replace everything.
        kept := 0;
        newEntries, newOffset, newInProgress := ents, from, from;
      } else {
        // Keep the entries before `from` and append after them.
        kept := from - offset;
        newEntries, newOffset, newInProgress := entries[..from - offset] + ents, offset, Min(offsetInProgress, from);
      }
      assert newEntries == entries[..kept] + ents;
      if from > offset {
        ConsecutiveSplice(entries, offset, kept, ents);
      }
      MergedTerms(entries, offset, snapshot, ents, kept, newEntries, newOffset);
      entries, offset, offsetInProgress := newEntries, newOffset, newInProgress;
      assert offset + |entries| == from + |ents|;
    }
  }

  /** The term lookup agrees with a reference that scans the entries from the
      front and then consults the snapshot. */
  lemma MaybeTermBySearch(u: Unstable, i: nat)
    requires u.Valid()
    ensures u.MaybeTerm(i) ==
            match FindTerm(u.entries, i)
            case Some(t) => (t, true)
            case None =>
              if u.snapshot.Some? && u.snapshot.value.index == i then (u.snapshot.value.term, true)
              else (0, false)
  {
    FindTermConsecutive(u.entries, u.offset, i);
  }

  /** The snapshot's own index is the one just below the first index, and the
      lookup there yields the snapshot's term. */
  lemma FirstIndexFollowsSnapshot(u: Unstable)
    requires u.Valid() && u.MaybeFirstIndex().1
    ensures u.MaybeFirstIndex().0 >= 1
    ensures u.MaybeTerm(u.MaybeFirstIndex().0 - 1) == (u.snapshot.value.term, true)
  {
  }
}
