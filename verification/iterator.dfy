/** The resumable batch iterator: initialisation, one step of `__next__`, resuming from a state file and
    resetting. Each operation is a transition from a navigator and the state files on disk to new ones
    and a result; the archive's directory walk, the random source, the free space and the extraction
    attempts come in as parameters. */
module BatchIterator {
  import opened Wrappers
  import opened Errors
  import opened Seqs
  import opened Paths
  import opened Extensions
  import opened Shuffle
  import opened Extraction
  import opened BatchState
  import opened ZipNavigator

  /** What an operation leaves behind: the navigator and the state files, both as they are after the
      call whether it succeeded or raised, and its result. */
  datatype Outcome<T> = Outcome(nav: Navigator, disk: Disk, result: Result<T, Error>)

  /** The arguments of `initialize_iterator`, with `output_dir` and `extract_subdir` already joined into
      the extraction folder `dir`. */
  datatype InitArgs = InitArgs(
    dir: string,
    batchSize: int,
    reset: bool,
    seed: Option<int>,
    extensions: Option<seq<string>>,
    onError: string,
    maxRetries: int,
    validateCrc: bool)

  /** The exclusive upper bound of a drawn seed, 2 to the 63rd. */
  const SeedBound: nat := 0x8000_0000_0000_0000

  /** The seed of a fresh run: the one given, or `randrange(1, 2**63)`, modelled as any number in that
      range picked by `entropy`. */
  function SeedOf(given: Option<int>, entropy: nat): (s: int)
    ensures given.Some? ==> s == given.value
    ensures given.None? ==> 1 <= s < SeedBound
  {
    if given.Some? then given.value else 1 + entropy % (SeedBound - 1)
  }

  /** The argument checks, in the order the source makes them. */
  function CheckArgs(args: InitArgs): (r: Result<Policy, Error>)
    ensures r.Success? <==> args.batchSize > 0 && ParseOnError(args.onError).Some? && args.maxRetries >= 0
    ensures r.Success? ==> r.value == Policy(ParseOnError(args.onError).value, args.maxRetries as nat, args.validateCrc)
  {
    if args.batchSize <= 0 then Failure(InvalidArgument(BatchSizeNotPositive))
    else if ParseOnError(args.onError).None? then Failure(InvalidArgument(UnknownErrorPolicy))
    else if args.maxRetries < 0 then Failure(InvalidArgument(NegativeRetries))
    else Success(Policy(ParseOnError(args.onError).value, args.maxRetries as nat, args.validateCrc))
  }

  /** `initialize_iterator`. After the argument checks the filter and the policy are stored at once, so
      a later failure leaves them changed; `reset` removes the folder's state file. With a state file
      present (and no reset) the saved run is loaded after checking that it belongs to the same archive,
      base and filter, and its saved policy replaces the one just stored. Otherwise the files under the
      base (`scan`) that are safe and pass the filter are shuffled with the seed and the new run is
      saved. Either way the iterator becomes active in `dir`, with the current directory as base. */
  function Initialize(nav: Navigator, disk: Disk, args: InitArgs, scan: string -> seq<string>,
                      entropy: nat, draw: Draw): Outcome<()>
    requires NavValid(nav)
  {
    match CheckArgs(args)
    case Failure(e) => Outcome(nav, disk, Failure(e))
    case Success(policy) =>
      var exts := NormalizeExtensions(args.extensions);
      var nav1 := nav.(it := nav.it.(extensions := exts, policy := policy));
      var disk1 := if args.reset then disk - {args.dir} else disk;
      var base := InitBase(nav.cwd);
      if !args.reset && args.dir in disk then
        var saved := disk[args.dir];
        if saved.zip != nav.zip.path then Outcome(nav1, disk1, Failure(DifferentZip))
        else if saved.baseAtInit != base then Outcome(nav1, disk1, Failure(DifferentBase))
        else if LoadedExtensions(saved.extensions) != exts then Outcome(nav1, disk1, Failure(DifferentFilter))
        else
          var it := nav1.it.(order := Some(saved.order), cursor := saved.cursor,
            batchSize := Some(saved.batchSize), seed := Some(saved.seed), failed := saved.failed,
            policy := saved.policy, active := true, extractDir := Some(args.dir), baseAtInit := base);
          Outcome(nav.(it := it), disk1, Success(()))
      else
        var files := Candidates(scan(base), exts);
        if files == [] then Outcome(nav1, disk1, Failure(NoFilesFound))
        else
          var seed := SeedOf(args.seed, entropy);
          var it := IterState(true, Some(args.dir), Some(args.batchSize as nat), Some(Shuffled(files, seed, draw)),
            0, base, Some(seed), exts, policy, []);
          Outcome(nav.(it := it), disk1[args.dir := Snapshot(nav.zip.path, it)], Success(()))
  }

  /** How far a call to `__next__` gets: refused before touching the folder (not initialised, or no
      batch left), failed after clearing the folder (not enough space, or a member under the abort
      policy), or done, with the advanced iterator and the members written out. */
  datatype Step =
    | Refused(error: Error)
    | Failed(error: Error)
    | Advanced(it: IterState, ok: seq<string>)

  /** The decisions of `__next__`: cut the batch at the cursor, check the space, extract; on success
      move the cursor to the batch's end and append the newly failed members to the log, skipping any
      already there. */
  function Advance(nav: Navigator, free: int, extract: Extractor): Step
    requires NavValid(nav)
  {
    var it := nav.it;
    if !it.active || it.order.None? then Refused(NotInitialized)
    else if it.cursor >= |it.order.value| then Refused(StopIteration)
    else
      var order := it.order.value;
      var batch := BatchAt(order, it.batchSize.value, it.cursor);
      var pre := Preflight(batch, nav.zip.sizes, free);
      if pre.Failure? then Failed(pre.error)
      else
        var res := ExtractAll(batch, it.policy, extract);
        if res.Failure? then Failed(res.error)
        else
          var end := Min(it.cursor + it.batchSize.value, |order|);
          Advanced(it.(cursor := end, failed := AppendNew(it.failed, res.value.failed)), res.value.ok)
  }

  /** `__next__`, with the state file kept when a batch fails: a failed call changes nothing, a
      successful one stores the advanced iterator and saves it. */
  function Next(nav: Navigator, disk: Disk, free: int, extract: Extractor): Outcome<seq<string>>
    requires NavValid(nav)
  {
    match Advance(nav, free, extract)
    case Refused(e) => Outcome(nav, disk, Failure(e))
    case Failed(e) => Outcome(nav, disk, Failure(e))
    case Advanced(it, ok) =>
      Outcome(nav.(it := it), disk[it.extractDir.value := Snapshot(nav.zip.path, it)], Success(ok))
  }

  /** `__next__` as the source runs it: clearing the folder before the preflight deletes every file in
      it, the state file included, so a batch that then fails leaves no state file behind. */
  function NextAsWritten(nav: Navigator, disk: Disk, free: int, extract: Extractor): Outcome<seq<string>>
    requires NavValid(nav)
  {
    match Advance(nav, free, extract)
    case Refused(e) => Outcome(nav, disk, Failure(e))
    case Failed(e) => Outcome(nav, disk - {nav.it.extractDir.value}, Failure(e))
    case Advanced(it, ok) =>
      Outcome(nav.(it := it), disk[it.extractDir.value := Snapshot(nav.zip.path, it)], Success(ok))
  }

  /** `resume_iterator` from the folder `dir`: no state file raises `FileNotFoundError`, a record of
      another archive `RuntimeError`, both changing nothing. Otherwise the saved run is loaded, and the
      navigator moves to the run's base unless it already stands there. */
  function Resume(nav: Navigator, disk: Disk, dir: string): Outcome<()>
    requires NavValid(nav) && DiskValid(disk)
  {
    if dir !in disk then Outcome(nav, disk, Failure(NoSavedState))
    else
      var saved := disk[dir];
      if saved.zip != nav.zip.path then Outcome(nav, disk, Failure(DifferentZip))
      else
        var cwd := if InitBase(nav.cwd) != saved.baseAtInit then saved.baseAtInit else nav.cwd;
        Outcome(nav.(cwd := cwd, it := Restore(saved, dir)), disk, Success(()))
  }

  /** `reset_iterator`: the folder is cleared and its state file removed when the iterator has a
      (non-empty) folder; every iterator field returns to its initial value. */
  function Reset(nav: Navigator, disk: Disk): Outcome<()> {
    var dir := nav.it.extractDir;
    var disk' := if dir.Some? && dir.value != "" then disk - {dir.value} else disk;
    Outcome(nav.(it := Inactive), disk', Success(()))
  }

  /** The state file of an active iterator mirrors it: the folder holds the record of exactly this
      run at this point. */
  predicate Synced(nav: Navigator, disk: Disk)
    requires Valid(nav.it)
  {
    nav.it.active ==>
      nav.it.extractDir.value in disk && disk[nav.it.extractDir.value] == Snapshot(nav.zip.path, nav.it)
  }

  /** The argument checks come first and in order, and a rejected call changes nothing: a non-positive
      batch size, then an unknown error policy, then a negative retry count. */
  lemma InitRejectsArguments(nav: Navigator, disk: Disk, args: InitArgs, scan: string -> seq<string>,
                             entropy: nat, draw: Draw)
    requires NavValid(nav)
    ensures var out := Initialize(nav, disk, args, scan, entropy, draw);
      && (out.result == Failure(InvalidArgument(BatchSizeNotPositive)) <==> args.batchSize <= 0)
      && (out.result == Failure(InvalidArgument(UnknownErrorPolicy)) <==>
          args.batchSize > 0 && args.onError != "skip" && args.onError != "abort")
      && (out.result == Failure(InvalidArgument(NegativeRetries)) <==>
          args.batchSize > 0 && (args.onError == "skip" || args.onError == "abort") && args.maxRetries < 0)
      && (CheckArgs(args).Failure? ==> out.nav == nav && out.disk == disk)
  {
  }

  /** Once the arguments pass, a call that raises has still replaced the filter and the policy with the
      new ones (and, with `reset`, removed the state file); nothing else has changed. */
  lemma InitFailureKeepsNewPolicy(nav: Navigator, disk: Disk, args: InitArgs, scan: string -> seq<string>,
                                  entropy: nat, draw: Draw)
    requires NavValid(nav)
    requires CheckArgs(args).Success?
    requires Initialize(nav, disk, args, scan, entropy, draw).result.Failure?
    ensures var out := Initialize(nav, disk, args, scan, entropy, draw);
      && out.nav == nav.(it := nav.it.(extensions := NormalizeExtensions(args.extensions),
                                       policy := CheckArgs(args).value))
      && out.disk == (if args.reset then disk - {args.dir} else disk)
  {
    var policy := CheckArgs(args).value;
    assert CheckArgs(args) == Success(policy);
    var exts := NormalizeExtensions(args.extensions);
    var nav1 := nav.(it := nav.it.(extensions := exts, policy := policy));
    var disk1 := if args.reset then disk - {args.dir} else disk;
    var out := Initialize(nav, disk, args, scan, entropy, draw);
    if !args.reset && args.dir in disk {
      assert out.nav == nav1 && out.disk == disk1;
    } else {
      assert Candidates(scan(InitBase(nav.cwd)), exts) == [];
      assert out == Outcome(nav1, disk1, Failure(NoFilesFound));
    }
  }

  /** A fresh run (a reset, or no state file in the folder) succeeds exactly when some file under the
      base is safe and passes the filter, and raises "No files found" exactly when none does. Its order is then a permutation of those files, it starts at
      the beginning with an empty failed log, the given batch size, the given or a drawn seed and the
      new policy, and it is saved in the folder. */
  lemma InitFresh(nav: Navigator, disk: Disk, args: InitArgs, scan: string -> seq<string>,
                  entropy: nat, draw: Draw)
    requires NavValid(nav)
    requires CheckArgs(args).Success?
    requires args.reset || args.dir !in disk
    ensures var out := Initialize(nav, disk, args, scan, entropy, draw);
      var files := Candidates(scan(InitBase(nav.cwd)), NormalizeExtensions(args.extensions));
      && (out.result.Success? <==> files != [])
      && (out.result == Failure(NoFilesFound) <==> files == [])
    ensures var out := Initialize(nav, disk, args, scan, entropy, draw);
      var files := Candidates(scan(InitBase(nav.cwd)), NormalizeExtensions(args.extensions));
      out.result.Success? ==>
        var it := out.nav.it;
        && it.active && it.order.Some? && it.extractDir == Some(args.dir)
        && multiset(it.order.value) == multiset(files)
        && it.cursor == 0 && it.failed == []
        && it.batchSize == Some(args.batchSize as nat)
        && it.seed == Some(SeedOf(args.seed, entropy))
        && it.policy == CheckArgs(args).value
        && it.extensions == NormalizeExtensions(args.extensions)
        && it.baseAtInit == InitBase(nav.cwd)
        && out.nav.cwd == nav.cwd
        && out.disk == (if args.reset then disk - {args.dir} else disk)[args.dir := Snapshot(nav.zip.path, it)]
  {
    var files := Candidates(scan(InitBase(nav.cwd)), NormalizeExtensions(args.extensions));
    ShuffledIsPermutation(files, SeedOf(args.seed, entropy), draw);
  }

  /** Initialising over an existing state file (no reset) loads it: it raises when the record belongs
      to another archive, another base or another filter, in that order, and otherwise the iterator is
      exactly the saved run, whose saved batch size, seed and policy win over the arguments; the state
      files stay as they were. */
  lemma InitLoad(nav: Navigator, disk: Disk, args: InitArgs, scan: string -> seq<string>,
                 entropy: nat, draw: Draw)
    requires NavValid(nav) && DiskValid(disk)
    requires CheckArgs(args).Success?
    requires !args.reset && args.dir in disk
    ensures var out := Initialize(nav, disk, args, scan, entropy, draw);
      var saved := disk[args.dir];
      && (out.result == Failure(DifferentZip) <==> saved.zip != nav.zip.path)
      && (out.result == Failure(DifferentBase) <==>
          saved.zip == nav.zip.path && saved.baseAtInit != InitBase(nav.cwd))
      && (out.result == Failure(DifferentFilter) <==>
          saved.zip == nav.zip.path && saved.baseAtInit == InitBase(nav.cwd) &&
          LoadedExtensions(saved.extensions) != NormalizeExtensions(args.extensions))
      && (out.result.Success? ==> out.nav == nav.(it := Restore(saved, args.dir)) && out.disk == disk)
  {
  }

  /** Initialisation keeps the navigator valid and the state files well formed, never moves the current
      directory, and a successful one leaves an active iterator in `dir`, started from the current
      directory, whose state file mirrors it. */
  lemma InitPreserves(nav: Navigator, disk: Disk, args: InitArgs, scan: string -> seq<string>,
                      entropy: nat, draw: Draw)
    requires NavValid(nav) && DiskValid(disk)
    ensures var out := Initialize(nav, disk, args, scan, entropy, draw);
      && NavValid(out.nav) && DiskValid(out.disk)
      && out.nav.cwd == nav.cwd && out.nav.zip == nav.zip
      && (out.result.Success? ==>
          && out.nav.it.active && out.nav.it.extractDir == Some(args.dir)
          && out.nav.it.baseAtInit == InitBase(nav.cwd)
          && Synced(out.nav, out.disk))
  {
    var out := Initialize(nav, disk, args, scan, entropy, draw);
    if CheckArgs(args).Failure? {
      InitRejectsArguments(nav, disk, args, scan, entropy, draw);
    } else if out.result.Failure? {
      InitFailureKeepsNewPolicy(nav, disk, args, scan, entropy, draw);
    } else if !args.reset && args.dir in disk {
      InitLoad(nav, disk, args, scan, entropy, draw);
      SnapshotRestore(disk[args.dir], args.dir);
    } else {
      InitFresh(nav, disk, args, scan, entropy, draw);
    }
  }

  /** `__next__` refuses without touching anything when no iterator is active (`RuntimeError`) and
      raises `StopIteration` exactly when the cursor has reached the end of the order; a call that
      raises for any reason leaves the navigator and the state files as they were. */
  lemma NextRefuses(nav: Navigator, disk: Disk, free: int, extract: Extractor)
    requires NavValid(nav)
    ensures var out := Next(nav, disk, free, extract);
      && (out.result == Failure(NotInitialized) <==> !nav.it.active)
      && (out.result == Failure(StopIteration) <==> nav.it.active && nav.it.cursor >= |nav.it.order.value|)
      && (out.result.Failure? ==> out.nav == nav && out.disk == disk)
  {
    var it := nav.it;
    if it.active && it.cursor < |it.order.value| {
      var batch := BatchAt(it.order.value, it.batchSize.value, it.cursor);
      ExtractAllMembers(batch, it.policy, extract);
    }
  }

  /** A batch handed out: the cursor moves past it (to the end at most) and nothing but the cursor and
      the failed log changes. The log only grows, stays free of repetitions and gains exactly the bad
      members of the batch; the members returned are exactly its good ones. What is left to hand out
      is the rest of the same sequence of batches, and the folder's state file now records the
      advanced run while the other folders' files are untouched. */
  lemma NextAdvances(nav: Navigator, disk: Disk, free: int, extract: Extractor)
    requires NavValid(nav)
    requires Next(nav, disk, free, extract).result.Success?
    ensures nav.it.active && nav.it.cursor < |nav.it.order.value|
    ensures var it := nav.it;
      var out := Next(nav, disk, free, extract);
      var order := it.order.value;
      var bs := it.batchSize.value;
      var batch := BatchAt(order, bs, it.cursor);
      var it' := out.nav.it;
      && it.cursor < it'.cursor <= |order|
      && out.nav == nav.(it := it.(cursor := Min(it.cursor + bs, |order|), failed := it'.failed))
      && IsPrefix(it.failed, it'.failed) && NoDup(it'.failed)
      && (forall x :: x in it'.failed <==> x in it.failed || (x in batch && !Good(it.policy, extract, x)))
      && (forall x :: x in out.result.value <==> x in batch && Good(it.policy, extract, x))
      && Batches(order, bs, it.cursor) == [batch] + Batches(order, bs, it'.cursor)
      && out.disk == disk[it.extractDir.value := Snapshot(nav.zip.path, it')]
  {
    var it := nav.it;
    var order := it.order.value;
    var bs := it.batchSize.value;
    var batch := BatchAt(order, bs, it.cursor);
    assert Advance(nav, free, extract).Advanced?;
    AdvancedStep(nav, free, extract);
    var step := Advance(nav, free, extract);
    assert Next(nav, disk, free, extract) ==
      Outcome(nav.(it := step.it), disk[step.it.extractDir.value := Snapshot(nav.zip.path, step.it)], Success(step.ok));
    ExtractAllMembers(batch, it.policy, extract);
    BatchesStep(order, bs, it.cursor);
  }

  /** A batch handed out has passed the space check and extracted without raising; the iterator then
      stands at the batch's end with the newly failed members appended. */
  lemma AdvancedStep(nav: Navigator, free: int, extract: Extractor)
    requires NavValid(nav)
    requires Advance(nav, free, extract).Advanced?
    ensures nav.it.active && nav.it.order.Some? && nav.it.cursor < |nav.it.order.value|
    ensures var it := nav.it;
      var order := it.order.value;
      var batch := BatchAt(order, it.batchSize.value, it.cursor);
      var res := ExtractAll(batch, it.policy, extract);
      && Preflight(batch, nav.zip.sizes, free).Success?
      && res.Success?
      && Advance(nav, free, extract) == Advanced(
           it.(cursor := Min(it.cursor + it.batchSize.value, |order|),
               failed := AppendNew(it.failed, res.value.failed)),
           res.value.ok)
    ensures Valid(Advance(nav, free, extract).it) && Advance(nav, free, extract).it.active
  {
  }

  /** The batches from the cursor are the batch at the cursor followed by the batches after it. */
  lemma BatchesStep(order: seq<string>, bs: nat, cursor: nat)
    requires bs >= 1 && cursor < |order|
    ensures Batches(order, bs, cursor) == [BatchAt(order, bs, cursor)] + Batches(order, bs, Min(cursor + bs, |order|))
  {
  }

  /** Under the skip policy a batch that passes the preflight is always handed out: the members
      returned are the good members of the batch in batch order, and together with the bad ones they
      account for the whole batch. */
  lemma NextSkip(nav: Navigator, disk: Disk, free: int, extract: Extractor)
    requires NavValid(nav) && nav.it.active && nav.it.cursor < |nav.it.order.value|
    requires nav.it.policy.onError == Skip
    requires Preflight(BatchAt(nav.it.order.value, nav.it.batchSize.value, nav.it.cursor), nav.zip.sizes, free).Success?
    ensures var batch := BatchAt(nav.it.order.value, nav.it.batchSize.value, nav.it.cursor);
      var out := Next(nav, disk, free, extract);
      && out.result.Success?
      && out.result.value == Filter(batch, m => Good(nav.it.policy, extract, m))
      && |out.result.value| + |Filter(batch, m => !Good(nav.it.policy, extract, m))| == |batch|
  {
    var batch := BatchAt(nav.it.order.value, nav.it.batchSize.value, nav.it.cursor);
    SkipPartitions(batch, nav.it.policy, extract);
    FilterComplement(batch, m => Good(nav.it.policy, extract, m), m => !Good(nav.it.policy, extract, m));
  }

  /** Under the abort policy a batch that passes the preflight is handed out exactly when every member
      in it is good, and then whole, with the failed log unchanged. */
  lemma NextAbort(nav: Navigator, disk: Disk, free: int, extract: Extractor)
    requires NavValid(nav) && nav.it.active && nav.it.cursor < |nav.it.order.value|
    requires nav.it.policy.onError == Abort
    requires Preflight(BatchAt(nav.it.order.value, nav.it.batchSize.value, nav.it.cursor), nav.zip.sizes, free).Success?
    ensures var batch := BatchAt(nav.it.order.value, nav.it.batchSize.value, nav.it.cursor);
      var out := Next(nav, disk, free, extract);
      && (out.result.Success? <==> forall k :: 0 <= k < |batch| ==> Good(nav.it.policy, extract, batch[k]))
      && (out.result.Success? ==> out.result.value == batch && out.nav.it.failed == nav.it.failed)
  {
    var batch := BatchAt(nav.it.order.value, nav.it.batchSize.value, nav.it.cursor);
    AbortAllOrNothing(batch, nav.it.policy, extract);
  }

  /** The space check comes before any extraction: when it fails the call raises `RuntimeError` with the
      estimate and the free space, whatever the extraction attempts would have done. */
  lemma NextPreflightFirst(nav: Navigator, disk: Disk, free: int, extract: Extractor, other: Extractor)
    requires NavValid(nav) && nav.it.active && nav.it.cursor < |nav.it.order.value|
    requires Preflight(BatchAt(nav.it.order.value, nav.it.batchSize.value, nav.it.cursor), nav.zip.sizes, free).Failure?
    ensures var batch := BatchAt(nav.it.order.value, nav.it.batchSize.value, nav.it.cursor);
      && Next(nav, disk, free, extract) == Next(nav, disk, free, other)
      && Next(nav, disk, free, extract) ==
         Outcome(nav, disk, Failure(InsufficientSpace(Needed(TotalSize(batch, nav.zip.sizes)), free)))
  {
  }

  /** `__next__` keeps the navigator valid and the state files well formed, and keeps an iterator in
      step with its state file. */
  lemma NextPreserves(nav: Navigator, disk: Disk, free: int, extract: Extractor)
    requires NavValid(nav) && DiskValid(disk) && Synced(nav, disk)
    ensures var out := Next(nav, disk, free, extract);
      NavValid(out.nav) && DiskValid(out.disk) && Synced(out.nav, out.disk)
  {
    if Next(nav, disk, free, extract).result.Success? {
      NextAdvances(nav, disk, free, extract);
    }
  }

  /** A batch that fails after the folder was cleared, as the source runs it, takes the state file with
      it: the iterator is no longer in step with its folder and resuming from that folder raises
      `FileNotFoundError`. */
  lemma NextAsWrittenLosesState(nav: Navigator, disk: Disk, free: int, extract: Extractor)
    requires NavValid(nav) && DiskValid(disk) && Synced(nav, disk)
    requires Advance(nav, free, extract).Failed?
    ensures var out := NextAsWritten(nav, disk, free, extract);
      && out.nav == nav && out.result.Failure?
      && !Synced(out.nav, out.disk)
      && Resume(out.nav, out.disk, nav.it.extractDir.value).result == Failure(NoSavedState)
  {
  }

  /** With the state file kept, a failed batch leaves the iterator in step with its folder, and
      resuming from the folder restores the very same iterator. */
  lemma NextFailureResumable(nav: Navigator, disk: Disk, free: int, extract: Extractor)
    requires NavValid(nav) && DiskValid(disk) && Synced(nav, disk)
    requires Advance(nav, free, extract).Failed?
    ensures var out := Next(nav, disk, free, extract);
      && out.nav == nav && out.disk == disk && out.result.Failure?
      && Synced(out.nav, out.disk)
      && Resume(out.nav, out.disk, nav.it.extractDir.value).result.Success?
      && Resume(out.nav, out.disk, nav.it.extractDir.value).nav.it == nav.it
  {
    SyncedResume(nav, disk);
  }

  /** An iterator in step with its state file can always be resumed from its folder: the navigator
      gets back every iterator field and stands where a new initialisation would record the same
      base. */
  lemma SyncedResume(nav: Navigator, disk: Disk)
    requires NavValid(nav) && DiskValid(disk) && Synced(nav, disk) && nav.it.active
    ensures var out := Resume(nav, disk, nav.it.extractDir.value);
      && out.result.Success? && out.disk == disk
      && out.nav.it == nav.it
      && InitBase(out.nav.cwd) == nav.it.baseAtInit
  {
    RestoreSnapshot(nav.zip.path, nav.it);
    InitBaseOfBase(nav.it.baseAtInit);
  }

  /** `resume_iterator` raises `FileNotFoundError` exactly when the folder has no state file and
      `RuntimeError` exactly when the file belongs to another archive, both changing nothing.
      Otherwise the iterator is the saved run, the state files are unchanged, the navigator stays valid
      and stands in the run's base. */
  lemma ResumeOutcome(nav: Navigator, disk: Disk, dir: string)
    requires NavValid(nav) && DiskValid(disk)
    ensures var out := Resume(nav, disk, dir);
      && (out.result == Failure(NoSavedState) <==> dir !in disk)
      && (out.result == Failure(DifferentZip) <==> dir in disk && disk[dir].zip != nav.zip.path)
      && (out.result.Failure? ==> out.nav == nav && out.disk == disk)
      && (out.result.Success? ==>
          && out.nav.it == Restore(disk[dir], dir) && out.disk == disk
          && out.nav.zip == nav.zip && NavValid(out.nav)
          && InitBase(out.nav.cwd) == disk[dir].baseAtInit
          && Synced(out.nav, out.disk))
  {
    if dir in disk && disk[dir].zip == nav.zip.path {
      InitBaseOfBase(disk[dir].baseAtInit);
      SnapshotRestore(disk[dir], dir);
    }
  }

  /** `reset_iterator` returns every iterator field to its initial value and removes the folder's state
      file, leaving the other folders alone: afterwards the status is inactive, `__next__` raises
      `RuntimeError` and resuming from that folder raises `FileNotFoundError`. */
  lemma ResetClears(nav: Navigator, disk: Disk, free: int, extract: Extractor)
    requires NavValid(nav) && DiskValid(disk)
    ensures var out := Reset(nav, disk);
      && out.result.Success? && out.nav == nav.(it := Inactive)
      && NavValid(out.nav) && DiskValid(out.disk) && Synced(out.nav, out.disk)
      && GetStatus(out.nav.it) == NotActive
      && Next(out.nav, out.disk, free, extract).result == Failure(NotInitialized)
      && (forall d :: d in disk && Some(d) != nav.it.extractDir ==> d in out.disk && out.disk[d] == disk[d])
      && (nav.it.extractDir.Some? && nav.it.extractDir.value != "" ==>
          Resume(out.nav, out.disk, nav.it.extractDir.value).result == Failure(NoSavedState))
  {
  }
}
