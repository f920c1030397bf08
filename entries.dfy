/** Values held by the unstable log: entry identities, snapshot metadata,
    and facts about runs of consecutive entries. Payloads, snapshot data and
    configurations are opaque to the buffer and are not represented. */
module LogEntries {

  datatype Option<+T> = None | Some(value: T)

  /** A log entry, reduced to its position in the log and the term in which it
      was proposed. */
  datatype Entry = Entry(index: nat, term: nat)

  /** The metadata of a snapshot: the index and term of the last entry it
      covers. */
  datatype SnapshotMeta = SnapshotMeta(index: nat, term: nat)

  /** An acknowledgment names an entry by its index and term. */
  datatype EntryId = EntryId(index: nat, term: nat)

  /** `es` occupies the indexes `from`, `from + 1`, ... with no gap. */
  ghost predicate Consecutive(es: seq<Entry>, from: nat)
  {
    forall k :: 0 <= k < |es| ==> es[k].index == from + k
  }

  /** The test fixture `index(n).terms(t0, t1, ...)`: consecutive entries
      starting at index `n` carrying the given terms. */
  function IndexTerms(n: nat, terms: seq<nat>): (es: seq<Entry>)
    ensures |es| == |terms|
    ensures Consecutive(es, n)
    ensures forall k :: 0 <= k < |es| ==> es[k].term == terms[k]
    decreases |terms|
  {
    if terms == [] then []
    else [Entry(n, terms[0])] + IndexTerms(n + 1, terms[1..])
  }

  /** Reference lookup: the term of the first entry of `es` whose index is `i`,
      found by scanning from the front. */
  function FindTerm(es: seq<Entry>, i: nat): Option<nat>
    decreases |es|
  {
    if es == [] then None
    else if es[0].index == i then Some(es[0].term)
    else FindTerm(es[1..], i)
  }

  /** On a consecutive run, the scan finds index `i` exactly when `i` lies in
      the run's range, and then it finds the entry at position `i - from`. */
  lemma {:induction false} FindTermConsecutive(es: seq<Entry>, from: nat, i: nat)
    requires Consecutive(es, from)
    ensures FindTerm(es, i) ==
            if from <= i < from + |es| then Some(es[i - from].term) else None
    decreases |es|
  {
    if es != [] && es[0].index != i {
      assert Consecutive(es[1..], from + 1);
      FindTermConsecutive(es[1..], from + 1, i);
    }
  }

  /** Dropping a prefix of a consecutive run leaves a consecutive run that
      starts after the dropped part. */
  lemma ConsecutiveSuffix(es: seq<Entry>, from: nat, n: nat)
    requires Consecutive(es, from) && n <= |es|
    ensures Consecutive(es[n..], from + n)
  {
  }

  /** A consecutive run, truncated to its first `n` entries and extended with
      a run starting at `from + n`, is again consecutive. */
  lemma ConsecutiveSplice(es: seq<Entry>, from: nat, n: nat, more: seq<Entry>)
    requires Consecutive(es, from) && n <= |es|
    requires Consecutive(more, from + n)
    ensures Consecutive(es[..n] + more, from)
  {
  }
}
