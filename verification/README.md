# ZipNavigator in Dafny

A model of the core of ZipNavigator, a navigator over ZIP archives with a resumable batch
extractor. Two parts are covered:

- The **path layer**:
  - `_resolve`, which turns a user path and the current directory into a canonical path inside the
    archive, or raises `ValueError` when the path would climb out of the root;
  - `pwd`;
  - `cd`, with directories inferred from the member names by a prefix test;
  - `_is_safe_member`, the traversal check on member names;
  - `_normalize_extensions`, the extension filter.
- The **batch iterator**, a state machine stepped by pure transition functions:
  - `initialize_iterator`: argument checks, the fresh-run pipeline (scan, safety check, filter,
    shuffle, save), and loading a saved run with its compatibility checks;
  - `__next__`: batch slicing, the disk-space preflight, extraction under the retry / skip / abort
    policy, cursor advance, the deduplicated failed log, and saving;
  - `iterator_status`, `reset_iterator` and `resume_iterator`.

`src/zip_navigator.py` is the same program as `src/zipnavigator.py` with Italian names and messages.
Its `inizializza_iteratore`, `stato_iteratore`, `reset_iteratore` and `resume_iteratore` are
`initialize_iterator`, `iterator_status`, `reset_iterator` and `resume_iterator`. The model is written
once, and the table below cites the English file. The corresponding Italian lines are:

| operation | lines in `src/zip_navigator.py` |
|---|---|
| `_is_safe_member` | 28 |
| `_normalize_extensions` | 38-49 |
| `pwd` | 106 |
| `_dir_exists_in_zip` | 110 |
| `_resolve` | 120-151 |
| `cd` | 194-219 |
| `inizializza_iteratore` | 269-365 |
| `_preflight_space` | 417-434 |
| `_extract_members` | 461-496 |
| `__next__` | 505-544 |
| `stato_iteratore` | 546-569 |
| `reset_iteratore` | 571-591 |
| `resume_iteratore` | 593-618 |

Everything outside the program's own decisions is a parameter:

- the archive's directory walk under the base (`scan`);
- the random seed draw (`entropy`) and the shuffle's index draws (`Draw`);
- the free space in the extraction folder;
- the success of each extraction attempt (`Extractor`).

The state files on disk are a map from extraction folder to the saved record (`Disk`). Each
operation returns the navigator and the disk as they stand after the call, whether it succeeded or
raised, together with its result.

Modules, in dependency order:

| module | contents |
|---|---|
| `Wrappers` | `Option` and `Result` |
| `Errors` | the exceptions |
| `Text` | ASCII string helpers |
| `Seqs` | filter, no-duplicates, `AppendNew`, flatten |
| `Paths` | `_resolve`, `pwd`, `_is_safe_member`, `splitext` |
| `Extensions` | the filter |
| `Shuffle` | `random.shuffle` over a draw oracle |
| `Extraction` | retries, the skip / abort policy, the preflight |
| `BatchState` | the iterator record, the saved record, the status, the batches |
| `ZipNavigator` | the navigator, `cd`, the base |
| `BatchIterator` | the four iterator operations |

## Model

| member | source | states |
|---|---|---|
| Paths.Resolve | src/zipnavigator.py:126-159 | `_resolve` itself: the backslash conversion, the PurePosixPath join with the current directory, `normpath`, the ".." test and the restored trailing slash; what it guarantees is stated by the `Paths.Resolve…` lemmas below |
| Paths.ResolveStaysInRoot | src/zipnavigator.py:126-159 | a path that resolves gives a canonical path inside the root that never starts with "..", and it ends in "/" exactly when the input did (after backslash conversion) and the result is not the root |
| Paths.ResolveFailsExactly | src/zipnavigator.py:145-153 | `_resolve` raises exactly when the first normalised component begins with ".." (a raw prefix test, so "..foo" is rejected too) |
| Paths.ResolveByParts | src/zipnavigator.py:135-157 | `_resolve` is `normpath` of the components to join (the current directory's, the input's, or both), rendered with the root as "" and the trailing slash restored |
| Paths.NormPathOfJoined | src/zipnavigator.py:145-149 | `normpath` of relative components is their ".."-collapsed join, "." when nothing is left |
| Paths.ResolveBackslashes | src/zipnavigator.py:129-130 | a backslash and a slash are the same separator to `_resolve` |
| Paths.ResolveAbsoluteIgnoresCwd | src/zipnavigator.py:138-140 | an absolute path resolves the same from every current directory |
| Paths.ResolveEmptyIsCwd | src/zipnavigator.py:135-136 | the empty path (or `None`) resolves to the current directory without its trailing slash |
| Paths.ResolveAbsoluteFixpoint | src/zipnavigator.py:138-157 | "/" followed by a canonical path resolves to that path from anywhere |
| Paths.ResolveParentOfRoot | src/zipnavigator.py:152-153 | ".." from the root raises |
| Paths.ResolveCollapsesExample | src/zipnavigator.py:145-149 | "a/../b" from the root resolves to "b" |
| Paths.ResolveDotDotPrefixExample | src/zipnavigator.py:152-153 | "..foo" from the root raises, because the check is a raw prefix test |
| Paths.CollapseExample | src/zipnavigator.py:145 | in `normpath`, ".." cancels the component before it and a later component is kept |
| Paths.Pwd | src/zipnavigator.py:112-114 | `pwd` itself, "/" for the root and "/" before the current directory otherwise; its round trip through `_resolve` is `Paths.PwdRoundTrip` |
| Paths.PwdRoundTrip | src/zipnavigator.py:112-114 | the absolute path `pwd` prints always starts with "/", and resolved from any directory it is the current directory again |
| Paths.IsSafeMember | src/zipnavigator.py:28-37 | `_is_safe_member` itself, branch by branch; what it accepts is characterised by `Paths.SafeMemberIff` |
| Paths.SafeMemberIff | src/zipnavigator.py:28-37 | a member name is safe exactly when it does not start with "/" or "\\", has no drive letter, and its normalised components hold no ".." |
| Paths.UnsafeParentExample | src/zipnavigator.py:34-36 | "../evil.txt" is unsafe |
| Paths.UnsafeDriveExample | src/zipnavigator.py:32-33 | "C:evil" is unsafe |
| Paths.SafeMemberSelfExample | src/zipnavigator.py:34-37 | "a/.." normalises to "." and is accepted as safe |
| Paths.SafeMemberDotsExample | src/zipnavigator.py:34-37 | "..foo" is a safe member name, unlike a "..foo" path given to `_resolve` |
| Paths.Extension | src/zipnavigator.py:340 | the `splitext` extension is empty or a dot followed by a suffix of the name with no further dot and no slash; when it is non-empty is stated by `Paths.ExtensionIff` |
| Paths.ExtensionIff | src/zipnavigator.py:340 | over all paths: `splitext` finds an extension exactly when the path is a name part (a final component with a character other than ".") followed by "." and characters that are neither "." nor "/", and the extension is then exactly that suffix |
| Paths.ExtensionOfSplit | src/zipnavigator.py:340 | a name part followed by such a suffix has exactly that suffix as its extension |
| Paths.ExtensionShape | src/zipnavigator.py:340 | a non-empty extension is such a suffix of the path, and what precedes it is a name part |
| Paths.ExtensionCsvExample | src/zipnavigator.py:340 | "a.csv" has the extension ".csv" |
| Paths.ExtensionBareDotExample | src/zipnavigator.py:340 | "a." has the extension ".", as `posixpath.splitext` gives |
| Paths.ExtensionDotFileExample | src/zipnavigator.py:340 | ".bashrc" has no extension, so no filter keeps it |
| Paths.ExtensionDirDotExample | src/zipnavigator.py:340 | "d.x/f" has no extension: a dot in a directory name does not count |
| Extensions.CanonExt | src/zipnavigator.py:43-48 | an entry becomes "" exactly when it is blank, and otherwise a stripped, lower-cased name with one leading dot |
| Extensions.NormalizeExtensions | src/zipnavigator.py:39-50 | no filter stays no filter; otherwise the set holds exactly the canonical forms of the non-blank entries, is non-empty, and is `None` only when every entry is blank |
| Extensions.NormalizeIdempotent | src/zipnavigator.py:39-50 | normalising a normalised filter again gives it back |
| Extensions.ExtensionsRoundTrip | src/zipnavigator.py:322-323 | a normalised filter saved as a list and read back with `set(...) or None` is unchanged, so a reload with the same filter passes the filter check |
| Extensions.Candidates | src/zipnavigator.py:338-340 | a scanned file is a candidate exactly when it is safe and passes the filter; the scan order is kept |
| Extensions.CandidatesWithoutFilter | src/zipnavigator.py:338-340 | without a filter, every safe file is a candidate in scan order |
| Extensions.CandidatesConcat | src/zipnavigator.py:338-340 | filtering works file by file: the candidates of two scans together are the candidates of each |
| Shuffle.Pick | src/zipnavigator.py:347 | the shuffle's drawn index never exceeds the position being filled |
| Shuffle.ShuffleOrder | src/zipnavigator.py:346-347 | the shuffle loop computes the shuffled order, and that order is a permutation of the candidates |
| Shuffle.ShuffleStepsPermutes | src/zipnavigator.py:347 | every prefix of the shuffle's swaps keeps the multiset of files |
| Shuffle.ShuffledIsPermutation | src/zipnavigator.py:343-347 | the run order is a permutation of the candidates: the same files with the same multiplicities, and no duplicates when there were none |
| Extraction.ParseOnError | src/zipnavigator.py:299-300 | the error policy is accepted exactly when it is "skip" or "abort" |
| Extraction.FirstSuccess | src/zipnavigator.py:482-490 | the retry loop stops at the first successful attempt within the budget, and finds none exactly when every attempt fails |
| Extraction.ExtractsIff | src/zipnavigator.py:482-493 | a member comes out exactly when one of its `max_retries + 1` attempts succeeds |
| Extraction.Retry | src/zipnavigator.py:480-493 | at most `max_retries + 1` attempts are made; they stop at the first success; every earlier attempt failed; the whole budget is spent only on failure |
| Extraction.ExtractAll | src/zipnavigator.py:464-498 | the outcome of `_extract_members` as a recursion over the batch, the reference the loop is proved equal to; its guarantees are `Extraction.ExtractAllMembers`, `SkipPartitions` and `AbortAllOrNothing` |
| Extraction.ExtractMembers | src/zipnavigator.py:464-498 | the member loop computes the member-by-member batch outcome, and makes at most `max_retries + 1` extraction attempts per safe member and none for an unsafe one, which the zip-slip guard fails before any attempt |
| Extraction.ExtractOne | src/zipnavigator.py:474-493 | one member: an unsafe member fails with no extraction attempt; a safe one comes out exactly when it is good, after at most `max_retries + 1` attempts |
| Extraction.SafeCountFilter | src/zipnavigator.py:474-478 | the safe members the attempt bound counts are exactly the members `_is_safe_member` lets through to the extractor |
| Extraction.AttemptBudgetIsProduct | src/zipnavigator.py:474-482 | the batch's attempt budget, `max_retries + 1` for each safe member and 0 for each unsafe one, is the number of safe members times `max_retries + 1` |
| Extraction.ExtractAllMembers | src/zipnavigator.py:473-498 | a completed batch writes out exactly its good members (safe and extracted) and fails exactly its bad ones; a batch that raises names an unsafe or failed member |
| Extraction.SkipPartitions | src/zipnavigator.py:473-498 | under skip, a batch never raises; the members written out are its good members in order, and the failed ones the rest |
| Extraction.AbortStep | src/zipnavigator.py:473-496 | under abort, a good member is written out ahead of the rest of the batch, and a bad one stops the batch with its error |
| Extraction.AbortAllOrNothing | src/zipnavigator.py:474-496 | under abort, a batch completes exactly when every member is good, and then writes out all of them and fails none |
| Extraction.AbortNamesFirstBad | src/zipnavigator.py:474-496 | under abort, a failing batch raises for its first bad member: every earlier member is good, and the error says whether it was unsafe or failed to extract |
| Extraction.Preflight | src/zipnavigator.py:422-439 | a failed preflight reports the estimate and the free space |
| Extraction.PreflightIff | src/zipnavigator.py:433-435 | the preflight passes exactly when the free space covers the total size, a twentieth of it rounded down, and 16 MiB |
| Extraction.TotalSizeConcat | src/zipnavigator.py:425-431 | the size of a batch is the sum over its members |
| Extraction.TotalSizeUnknown | src/zipnavigator.py:427-431 | members missing from the archive's index contribute nothing, so a batch of them needs only the headroom |
| BatchState.Snapshot | src/zipnavigator.py:529-545 | the record saved for an active iterator is well formed |
| BatchState.Restore | src/zipnavigator.py:607-622 | the iterator loaded from a well-formed record is active and valid |
| BatchState.RestoreSnapshot | src/zipnavigator.py:597-622 | resuming from what `__next__` saved gives back every iterator field |
| BatchState.SnapshotRestore | src/zipnavigator.py:326-334 | loading a record and saving it again writes the same record |
| BatchState.GetStatus | src/zipnavigator.py:548-572 | `iterator_status` itself; what the report promises is `BatchState.StatusCounts` |
| BatchState.StatusCounts | src/zipnavigator.py:548-572 | the status is active exactly when an order is loaded; the extracted and remaining counts add up to the total for every valid iterator (the cursor never passes the end of the order); remaining is 0 exactly at the end; the failed tail is the last `min(10, n)` failed members |
| BatchState.BatchAt | src/zipnavigator.py:513-514 | a batch is never empty and never longer than the batch size |
| BatchState.BatchesPartition | src/zipnavigator.py:513-525 | the successive batches laid end to end are exactly the rest of the order, and all but the last are full |
| ZipNavigator.Open | src/zipnavigator.py:77-99 | a new navigator is valid, stands at the root, prints "/" and has no active iterator |
| ZipNavigator.DirExistsInZip | src/zipnavigator.py:116-124 | `_dir_exists_in_zip` itself, the prefix test over the member names; how `cd` uses it is `ZipNavigator.CdSucceedsIff` and `CdErrors` |
| ZipNavigator.CdDir | src/zipnavigator.py:201-227 | the directory `cd` moves to, or the error it raises; stated by `ZipNavigator.CdTarget`, `CdErrors`, `CdRoot` and `CdPwd` |
| ZipNavigator.Cd | src/zipnavigator.py:201-227 | a successful `cd` changes the current directory and nothing else |
| ZipNavigator.CdSucceedsIff | src/zipnavigator.py:201-214 | `cd` succeeds exactly when the path resolves to the root or to a directory some member name lies under |
| ZipNavigator.CdTarget | src/zipnavigator.py:207-214 | `cd` moves to the root, or to the resolved directory with exactly one trailing slash; that is a valid current directory, and resolving "" from it gives the directory back |
| ZipNavigator.CdKeepsValid | src/zipnavigator.py:201-214 | a successful `cd` keeps the navigator valid |
| ZipNavigator.CdErrors | src/zipnavigator.py:216-227 | `cd` raises `ValueError` exactly when the path leaves the root, `NotADirectoryError` exactly when the target is a member with nothing under it, and `FileNotFoundError` exactly when it is neither |
| ZipNavigator.CdRoot | src/zipnavigator.py:206-209 | `cd("/")` always goes to the root |
| ZipNavigator.CdPwd | src/zipnavigator.py:112-114 | `cd(pwd())` from any existing directory lands in the same directory: the root stays the root, any other directory is stored with one trailing slash (a directory `cd` stored stays the same string), and resolving the empty path there gives the directory back |
| ZipNavigator.DirAsCwd | src/zipnavigator.py:212-213 | a directory stored with one trailing slash keeps its body and is a valid current directory |
| ZipNavigator.InitBase | src/zipnavigator.py:372 | the recorded base is what resolving the empty path from the current directory yields: canonical, inside the root, without a trailing slash |
| ZipNavigator.InitBaseFixpoint | src/zipnavigator.py:320 | a navigator standing at a recorded base records the same base again |
| ZipNavigator.InitBaseOfBase | src/zipnavigator.py:607-609 | after `resume_iterator` moves to the saved base, the base it would record is that base |
| ZipNavigator.InitBaseAsWrittenDoubles | src/zipnavigator.py:372 | as written, the base of the current directory "d/" is "d/d/", where "d" is meant |
| BatchIterator.Initialize | src/zipnavigator.py:276-372 | `initialize_iterator`, corrected (see Findings): the base it records and checks is `ZipNavigator.InitBase`, not `self._resolve(self._cwd)`; its guarantees are `BatchIterator.InitRejectsArguments`, `InitFailureKeepsNewPolicy`, `InitFresh`, `InitLoad` and `InitPreserves` |
| BatchIterator.Next | src/zipnavigator.py:507-546 | `__next__`, corrected (see Findings): a failed batch keeps the state file, which the source deletes at line 517; its guarantees are `BatchIterator.NextRefuses`, `NextAdvances`, `NextSkip`, `NextAbort` and `NextPreserves` |
| BatchIterator.NextAsWritten | src/zipnavigator.py:507-546 | `__next__` as written, with the state file removed when a batch fails after the folder was cleared; stated by `BatchIterator.NextAsWrittenLosesState` |
| BatchIterator.Resume | src/zipnavigator.py:597-624 | `resume_iterator`, corrected (see Findings): the base test at line 608 uses `ZipNavigator.InitBase`, not `self._resolve(self._cwd)`; its guarantees are `BatchIterator.ResumeOutcome` and `SyncedResume` |
| BatchIterator.Reset | src/zipnavigator.py:574-595 | `reset_iterator` itself; its guarantees are `BatchIterator.ResetClears` |
| BatchIterator.SeedOf | src/zipnavigator.py:344-345 | the seed is the given one, or a draw in `[1, 2**63)` |
| BatchIterator.CheckArgs | src/zipnavigator.py:297-302 | the arguments pass exactly when the batch size is positive, the policy is known and the retry count is not negative; the policy is then built from them |
| BatchIterator.InitRejectsArguments | src/zipnavigator.py:297-302 | the three `ValueError`s come in the source's order, and a rejected call changes nothing |
| BatchIterator.InitFailureKeepsNewPolicy | src/zipnavigator.py:304-342 | once the arguments pass, a call that raises has still stored the new filter and policy (and with `reset` removed the state file), and changed nothing else |
| BatchIterator.InitFresh | src/zipnavigator.py:335-368 | a fresh run succeeds exactly when some scanned file is safe and passes the filter, and raises the "No files found" `RuntimeError` exactly when none does; its order is then a permutation of those files, the cursor is 0, the failed log is empty, the batch size, seed and policy are the new ones, and the run is saved in its folder |
| BatchIterator.InitLoad | src/zipnavigator.py:316-334 | loading raises for a different archive, base or filter, each exactly when it is the first mismatch; otherwise the iterator is the saved run, and the saved batch size, seed and policy win over the arguments |
| BatchIterator.InitPreserves | src/zipnavigator.py:276-372 | initialisation keeps the navigator and the state files valid and never moves the current directory; on success the iterator is active in the given folder, records the current directory as base, and matches its state file |
| BatchIterator.NextRefuses | src/zipnavigator.py:507-511 | `__next__` raises `RuntimeError` exactly when no iterator is active and `StopIteration` exactly when the cursor is at the end; in the corrected `Next` (see Findings) any call that raises changes nothing, while as written a raise after line 517 has already removed the state file |
| BatchIterator.NextAdvances | src/zipnavigator.py:513-546 | a batch handed out moves the cursor strictly forward, to its end and at most `len(order)`; only the cursor and the failed log change; the log keeps its old entries as a prefix, stays free of repeats, and gains exactly the bad members; the result is exactly the good members; the remaining batches are the rest of the same sequence; only this folder's state file changes |
| BatchIterator.NextSkip | src/zipnavigator.py:519-526 | under skip, a batch that passes the preflight is always handed out, with the good members in order, and the good and the bad members together make up the batch |
| BatchIterator.NextAbort | src/zipnavigator.py:519-526 | under abort, a batch that passes the preflight is handed out exactly when all its members are good, and then whole with the failed log unchanged |
| BatchIterator.NextPreflightFirst | src/zipnavigator.py:519-523 | when the space check fails, `__next__` raises with the estimate and the free space, whatever the extraction would have done |
| BatchIterator.NextPreserves | src/zipnavigator.py:507-546 | `__next__` keeps the navigator and the state files valid and the iterator in step with its state file |
| BatchIterator.NextAsWrittenLosesState | src/zipnavigator.py:516-523 | as written, a batch that fails after the folder was cleared leaves no state file, and resuming from the folder raises `FileNotFoundError` |
| BatchIterator.NextFailureResumable | src/zipnavigator.py:516-523 | with the state file kept, a failed batch changes nothing, and resuming from the folder restores the same iterator |
| BatchIterator.SyncedResume | src/zipnavigator.py:597-622 | an iterator in step with its state file resumes from its folder with every field restored, standing where a new initialisation records the same base |
| BatchIterator.ResumeOutcome | src/zipnavigator.py:597-622 | `resume_iterator` raises `FileNotFoundError` exactly without a state file and `RuntimeError` exactly for another archive, changing nothing; otherwise the iterator is the saved run, the navigator stays valid at the saved base, and the state files are untouched |
| BatchIterator.ResetClears | src/zipnavigator.py:574-595 | `reset_iterator` restores every default and removes only its own folder's state file; afterwards the status is inactive, `__next__` raises `RuntimeError`, and resuming from that folder raises `FileNotFoundError` |

## Left out

- `_zpath`, `ls`, `exists`, `is_dir`, `is_file`, `cat`, `info` and `_scan_all_files_under` are thin wrappers over `zipfile.Path`. They are not modelled. The directory walk is the parameter `scan`.
- `_extract_one_raw` and `_extract_one_crc` (decompression, CRC checks, file writes) are an oracle per attempt. Only the branch on `validate_crc` is modelled. The extracted list holds member names, not the absolute paths of the written files.
- `_clear_extract_dir`, `shutil.rmtree`, `os.makedirs` and `_free_space_bytes` are not modelled; the free space is an input. The folder's contents are not modelled beyond its state file.
- `_save_state` and `_load_state` (JSON, the temporary file and `os.replace`) are replaced by the record in the `Disk` map. The saved `extract_dir` field is left out because nothing reads it back.
- The saved filter is a set, not the sorted list the file holds, because loading only uses its elements. For the same reason, the status reports the filter as a set.
- `zip` and `state_file` in the status are absolute-path renderings and are left out.
- State files edited by hand, with missing keys or wrong types, are not modelled: `Resume` requires well-formed records. The `.get(..., default)` fallbacks of `resume_iterator` therefore never apply.
- `os.path.abspath` is identity on the archive path. `os.path.join(output_dir, extract_subdir)` is given as one folder string `dir`.
- `random.Random` (Mersenne Twister) and `randrange` are not modelled. The shuffle is Python's swap loop with each index drawn by an arbitrary oracle, capped at the position. The seed draw is any value in range.
- Shuffle.Pick: caps an out-of-range draw rather than assuming the oracle is in range; `randbelow` never draws out of range, so this changes nothing for the real generator.
- The float factor `1.05` in the preflight is the integer `total * 105 / 100` (floor). Because `total * 1.05` is rounded to a double, the two can differ by one for totals from about 5.4·10^14 bytes (about 2^49) up; the first such total is 536142812782199.
- `isalpha`, `strip` and `lower` are modelled on ASCII only. Unicode case mapping and whitespace are not modelled.
- Paths that begin with exactly `//` are not modelled: `PurePosixPath` treats that root specially.
- ZipNavigator.CdPwd: requires a current directory without backslashes, and one that exists (the root, or a directory some member name lies under). Every directory `cd` stores has no backslash, because `_resolve` converts them, but the model does not carry that fact as an invariant of the navigator. The base `resume_iterator` moves to is stored without its trailing slash; for it, `cd(pwd())` reaches the same directory with the slash added, which the lemma states.
- `cd("")` stays in the current directory, as the code does (an empty path resolves to the current directory). One of the repository's tests expects the root instead.
- `__iter__`, `close` and the context-manager methods are not modelled.
- Extraction folders are independent keys of the `Disk` map, and the model does not relate a folder to the folders nested inside it. Three steps remove files from the whole tree under the extraction folder: `_clear_extract_dir` (src/zipnavigator.py:407-418, an `os.walk` that removes every file and every empty subfolder) in `reset_iterator` (:574-582) and in `__next__` (:517), and `shutil.rmtree(extract_dir)` in `initialize_iterator` with `reset=True` (:312-313). Each of them also deletes the `.zip_iter_state.json` of any extraction folder nested inside. So BatchIterator.NextAdvances, BatchIterator.InitPreserves, BatchIterator.InitFailureKeepsNewPolicy and BatchIterator.ResetClears state only that the record of this folder changes, and say nothing about nested folders' records.
- Extraction.Preflight: states only the error it reports; when it passes is stated by Extraction.PreflightIff.

## Findings

| source | as written | input that shows it | evidently intended | confidence | as-written member | corrected member |
|---|---|---|---|---|---|---|
| src/zipnavigator.py:372 | The base is `self._resolve(self._cwd)`, which resolves the current directory relative to itself. The same expression appears at lines 320, 336 and 608, and at lines 313, 329, 365 and 603 of `src/zip_navigator.py`. | After `cd("payload/")` the current directory is "payload/", and its base becomes "payload/payload/". The scan of that base finds nothing, so initialisation raises "No files found". | The current directory itself, "payload", which is what resolving the empty path gives. | high, not executed | ZipNavigator.InitBaseAsWrittenDoubles | ZipNavigator.InitBase |
| src/zipnavigator.py:517 | `__next__` empties the extraction folder before the preflight and the extraction. `_clear_extract_dir` removes every file, the state file `.zip_iter_state.json` included, and both later steps can still raise. | Take an active run whose next batch needs more space than is free, or one with a bad member under abort. The call raises, no state file is left, and `resume_iterator` on that folder raises `FileNotFoundError`. | A batch that fails leaves the run resumable from the last saved batch. | medium, not executed | BatchIterator.NextAsWrittenLosesState | BatchIterator.NextFailureResumable |
