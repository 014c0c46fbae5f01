/** The batch iterator's record: the fields a navigator holds, the record its state file stores, the
    status report, and how the shuffled order is cut into batches. */
module BatchState {
  import opened Wrappers
  import opened Seqs
  import opened Paths
  import opened Extensions
  import opened Extraction

  /** The iterator fields of a navigator. `None` stands for Python's `None`. */
  datatype IterState = IterState(
    active: bool,
    extractDir: Option<string>,
    batchSize: Option<nat>,
    order: Option<seq<string>>,
    cursor: nat,
    baseAtInit: string,
    seed: Option<int>,
    extensions: Option<set<string>>,
    policy: Policy,
    failed: seq<string>)

  /** The fields of a navigator that has never started an iterator, or has just reset it. */
  const Inactive := IterState(false, None, None, None, 0, "", None, None, DefaultPolicy, [])

  /** A filter as the normalisation leaves it: none, or a non-empty set. */
  predicate FilterShape(exts: Option<set<string>>) {
    exts.None? || exts.value != {}
  }

  /** The shape of a recorded base: a canonical directory without a trailing slash, as resolving the
      empty path leaves it. */
  predicate BaseShape(b: string) {
    IsCwd(b) && IsRelative(b) && (b == "" || b[|b| - 1] != '/')
  }

  /** What every operation keeps true of the iterator: an active iterator has its order, a cursor
      inside it, a positive batch size, a seed and a folder; the base it was started from is a
      canonical directory; the failed log holds no repetitions. */
  predicate Valid(it: IterState) {
    && (it.active ==> it.order.Some? && it.batchSize.Some? && it.batchSize.value >= 1)
    && (it.active ==> it.cursor <= |it.order.value|)
    && (it.active ==> it.seed.Some? && it.extractDir.Some?)
    && BaseShape(it.baseAtInit)
    && FilterShape(it.extensions)
    && NoDup(it.failed)
  }

  /** The state file's contents. The recorded folder path is not modelled: nothing reads it back. */
  datatype SavedState = SavedState(
    zip: string,
    baseAtInit: string,
    order: seq<string>,
    cursor: nat,
    batchSize: nat,
    seed: int,
    extensions: set<string>,
    failed: seq<string>,
    policy: Policy)

  /** The state files on disk, by extraction folder (each folder has one, at a fixed name). */
  type Disk = map<string, SavedState>

  /** A state file as the navigator writes it: the cursor lies inside the saved order. */
  predicate SavedValid(s: SavedState) {
    s.batchSize >= 1 && s.cursor <= |s.order| && BaseShape(s.baseAtInit) && NoDup(s.failed)
  }

  predicate DiskValid(disk: Disk) {
    forall d :: d in disk ==> SavedValid(disk[d])
  }

  /** `_save_state` of an active iterator: the record written after a fresh start and after each
      batch. */
  function Snapshot(zip: string, it: IterState): (s: SavedState)
    requires Valid(it) && it.active
    ensures SavedValid(s)
  {
    SavedState(zip, it.baseAtInit, it.order.value, it.cursor, it.batchSize.value, it.seed.value,
      SavedExtensions(it.extensions), it.failed, it.policy)
  }

  /** The iterator fields `resume_iterator` loads from a record found in `dir`. */
  function Restore(s: SavedState, dir: string): (it: IterState)
    requires SavedValid(s)
    ensures Valid(it) && it.active
  {
    IterState(true, Some(dir), Some(s.batchSize), Some(s.order), s.cursor, s.baseAtInit, Some(s.seed),
      LoadedExtensions(s.extensions), s.policy, s.failed)
  }

  /** Saving and restoring an active iterator gives back every field of it: the run resumes where it
      stopped. */
  lemma RestoreSnapshot(zip: string, it: IterState)
    requires Valid(it) && it.active
    ensures Restore(Snapshot(zip, it), it.extractDir.value) == it
  {
    assert LoadedExtensions(SavedExtensions(it.extensions)) == it.extensions;
  }

  /** Restoring a record and saving it again writes the same record: loading a state file and saving
      it at once leaves the file as it was. */
  lemma SnapshotRestore(s: SavedState, dir: string)
    requires SavedValid(s)
    ensures Snapshot(s.zip, Restore(s, dir)) == s
  {
    assert SavedExtensions(LoadedExtensions(s.extensions)) == s.extensions;
  }

  /** The status report. */
  datatype Status =
    | NotActive
    | Active(
        base: string,
        batchSize: Option<nat>,
        seed: Option<int>,
        extensionFilter: Option<set<string>>,
        total: nat,
        extractedSoFar: nat,
        remaining: nat,
        failedSoFar: nat,
        failedTail: seq<string>,
        extractDir: Option<string>,
        policy: Policy)

  /** Whether `suffix` is how `s` ends. */
  predicate EndsWithSeq<T(==)>(s: seq<T>, suffix: seq<T>) {
    |suffix| <= |s| && s[|s| - |suffix|..] == suffix
  }

  /** How many failed members the status report lists. */
  const TailLength: nat := 10

  /** `failed[-10:]`. */
  function Tail(failed: seq<string>): seq<string> {
    if |failed| <= TailLength then failed else failed[|failed| - TailLength..]
  }

  /** `iterator_status`: `{active: False}` without an order; otherwise the counts, the base ("/" for
      the root), the filter (`None` when empty) and the last ten failed members. */
  function GetStatus(it: IterState): Status {
    if !it.active || it.order.None? then NotActive
    else
      var total := |it.order.value|;
      Active(
        if it.baseAtInit == "" then "/" else it.baseAtInit,
        it.batchSize,
        it.seed,
        if it.extensions.Some? && it.extensions.value != {} then it.extensions else None,
        total,
        it.cursor,
        Max(total - it.cursor, 0),
        |it.failed|,
        Tail(it.failed),
        it.extractDir,
        it.policy)
  }

  /** The report is active exactly when the iterator is; its counts add up to the total, and the
      remaining count is zero exactly when the cursor has reached the end; the failed tail is the end
      of the failed log, at most ten long. */
  lemma StatusCounts(it: IterState)
    requires Valid(it)
    ensures GetStatus(it).Active? <==> it.active && it.order.Some?
    ensures GetStatus(it).Active? ==>
      var st := GetStatus(it);
      && st.total == |it.order.value|
      && st.extractedSoFar + st.remaining == st.total
      && (st.remaining == 0 <==> it.cursor >= st.total)
      && st.failedSoFar == |it.failed|
      && |st.failedTail| == Min(TailLength, |it.failed|)
      && EndsWithSeq(it.failed, st.failedTail)
  {
  }

  /** The batch `__next__` cuts at the cursor: `order[cursor:min(cursor + batch_size, len(order))]`. */
  function BatchAt(order: seq<string>, batchSize: nat, cursor: nat): (b: seq<string>)
    requires batchSize >= 1 && cursor < |order|
    ensures 1 <= |b| <= batchSize
  {
    order[cursor..Min(cursor + batchSize, |order|)]
  }

  /** The batches a run hands out from the cursor to the end, in order. */
  function Batches(order: seq<string>, batchSize: nat, cursor: nat): seq<seq<string>>
    requires batchSize >= 1
    decreases |order| - cursor
  {
    if cursor >= |order| then []
    else [BatchAt(order, batchSize, cursor)] + Batches(order, batchSize, Min(cursor + batchSize, |order|))
  }

  /** The batches partition what is left of the order: laid end to end they are exactly
      `order[cursor:]`, none is empty or longer than the batch size, and all but the last are full. */
  lemma {:induction false} BatchesPartition(order: seq<string>, batchSize: nat, cursor: nat)
    requires batchSize >= 1 && cursor <= |order|
    ensures Flatten(Batches(order, batchSize, cursor)) == order[cursor..]
    ensures forall k :: 0 <= k < |Batches(order, batchSize, cursor)| ==>
      1 <= |Batches(order, batchSize, cursor)[k]| <= batchSize
    ensures forall k :: 0 <= k < |Batches(order, batchSize, cursor)| - 1 ==>
      |Batches(order, batchSize, cursor)[k]| == batchSize
    decreases |order| - cursor
  {
    if cursor < |order| {
      var next := Min(cursor + batchSize, |order|);
      var rest := Batches(order, batchSize, next);
      BatchesPartition(order, batchSize, next);
      assert Batches(order, batchSize, cursor) == [BatchAt(order, batchSize, cursor)] + rest;
      assert order[cursor..] == order[cursor..next] + order[next..];
      if |rest| > 0 {
        assert next < |order|;
        assert next == cursor + batchSize;
      }
    }
  }
}
