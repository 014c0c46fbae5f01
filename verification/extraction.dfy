/** Extraction of one batch: the disk-space preflight and the per-member retry loop under the skip or
    abort policy. The archive reads and the file writes are an oracle; the decisions around them are
    modelled exactly. */
module Extraction {
  import opened Wrappers
  import opened Errors
  import opened Seqs
  import opened Paths

  /** What to do when a member cannot be extracted: record it and go on, or stop the batch. */
  datatype OnError = Skip | Abort

  /** The accepted spellings of the error policy. */
  function ParseOnError(s: string): (r: Option<OnError>)
    ensures r == Some(Skip) <==> s == "skip"
    ensures r == Some(Abort) <==> s == "abort"
    ensures r.None? <==> s != "skip" && s != "abort"
  {
    if s == "skip" then Some(Skip)
    else if s == "abort" then Some(Abort)
    else None
  }

  /** How a batch is extracted: the error policy, how many times a failed member is retried, and
      whether the member is streamed out with its checksum verified instead of extracted directly. */
  datatype Policy = Policy(onError: OnError, maxRetries: nat, validateCrc: bool)

  /** The policy a navigator starts with and returns to after a reset. */
  const DefaultPolicy := Policy(Skip, 1, false)

  /** Whether attempt number `attempt` at extracting `member` succeeds, with the checksum-verifying
      path when the flag is set. Attempts may differ (a transient error, a full disk). */
  type Extractor = (bool, string, nat) -> bool

  /** The retry loop `for attempt in range(from, attempts)`, which stops at the first attempt that
      succeeds: that attempt, or `None` when every one fails. */
  function FirstSuccess(extract: Extractor, crc: bool, member: string, from: nat, attempts: nat): (r: Option<nat>)
    ensures r.Some? ==> from <= r.value < attempts && extract(crc, member, r.value)
    ensures r.Some? ==> forall a :: from <= a < r.value ==> !extract(crc, member, a)
    ensures r.None? <==> forall a :: from <= a < attempts ==> !extract(crc, member, a)
    decreases attempts - from
  {
    if from >= attempts then None
    else if extract(crc, member, from) then Some(from)
    else FirstSuccess(extract, crc, member, from + 1, attempts)
  }

  /** Whether a safe member ends up extracted: one of its `maxRetries + 1` attempts succeeds. */
  predicate Extracts(policy: Policy, extract: Extractor, member: string) {
    FirstSuccess(extract, policy.validateCrc, member, 0, policy.maxRetries + 1).Some?
  }

  /** A member is extracted exactly when some attempt within the retry budget succeeds. */
  lemma ExtractsIff(policy: Policy, extract: Extractor, member: string)
    ensures Extracts(policy, extract, member) <==>
      exists a :: 0 <= a <= policy.maxRetries && extract(policy.validateCrc, member, a)
  {
  }

  /** Whether a member comes out of the batch extracted: it passes the traversal check and one of its
      attempts succeeds. */
  predicate Good(policy: Policy, extract: Extractor, member: string) {
    IsSafeMember(member) && Extracts(policy, extract, member)
  }

  /** What extracting a batch hands back: the members written out and the members that failed, each
      in batch order. */
  datatype BatchResult = BatchResult(ok: seq<string>, failed: seq<string>)

  /** The outcome of extracting a batch, member by member from the front: an unsafe member or one whose
      attempts all fail is recorded as failed under the skip policy and stops the batch under the abort
      policy. */
  function ExtractAll(members: seq<string>, policy: Policy, extract: Extractor): Result<BatchResult, Error>
    decreases |members|
  {
    if |members| == 0 then Success(BatchResult([], []))
    else
      var m := members[0];
      if !IsSafeMember(m) && policy.onError == Abort then Failure(UnsafeMember(m))
      else if IsSafeMember(m) && !Extracts(policy, extract, m) && policy.onError == Abort then
        Failure(ExtractionFailed(m))
      else
        var rest :- ExtractAll(members[1..], policy, extract);
        if Good(policy, extract, m) then Success(BatchResult([m] + rest.ok, rest.failed))
        else Success(BatchResult(rest.ok, [m] + rest.failed))
  }

  /** The result of the members already handled followed by the result of the rest. */
  function Combine(done: BatchResult, rest: Result<BatchResult, Error>): Result<BatchResult, Error> {
    if rest.Failure? then rest
    else Success(BatchResult(done.ok + rest.value.ok, done.failed + rest.value.failed))
  }

  /** Nothing handled yet: the result is the result of the rest. */
  lemma CombineNothing(rest: Result<BatchResult, Error>)
    ensures Combine(BatchResult([], []), rest) == rest
  {
    if rest.Success? {
      assert [] + rest.value.ok == rest.value.ok;
      assert [] + rest.value.failed == rest.value.failed;
    }
  }

  /** Handing the next member of the batch over to the accumulated result: a good member joins the
      extracted ones, a bad one the failed ones under the skip policy, and under the abort policy a bad
      member ends the batch with its error. */
  lemma CombineStep(done: BatchResult, members: seq<string>, policy: Policy, extract: Extractor)
    requires |members| > 0
    ensures var m := members[0];
      Combine(done, ExtractAll(members, policy, extract)) ==
        if Good(policy, extract, m) then
          Combine(BatchResult(done.ok + [m], done.failed), ExtractAll(members[1..], policy, extract))
        else if policy.onError == Abort then Failure(AbortError(m))
        else Combine(BatchResult(done.ok, done.failed + [m]), ExtractAll(members[1..], policy, extract))
  {
    var m := members[0];
    var rest := ExtractAll(members[1..], policy, extract);
    if rest.Success? {
      assert done.ok + ([m] + rest.value.ok) == done.ok + [m] + rest.value.ok;
      assert done.failed + ([m] + rest.value.failed) == done.failed + [m] + rest.value.failed;
    }
  }

  /** The retry loop for one safe member: attempts in order until one succeeds or the budget of
      `maxRetries + 1` attempts is spent. It reports whether the member came out and how many attempts
      were made: never more than the budget, the last one the first success when there is one, and
      the whole budget otherwise. */
  method Retry(policy: Policy, extract: Extractor, member: string) returns (done: bool, tries: nat)
    ensures done <==> Extracts(policy, extract, member)
    ensures 1 <= tries <= policy.maxRetries + 1
    ensures forall a :: 0 <= a < tries - 1 ==> !extract(policy.validateCrc, member, a)
    ensures done <==> extract(policy.validateCrc, member, tries - 1)
    ensures !done ==> tries == policy.maxRetries + 1
  {
    done := false;
    var attempt := 0;
    while attempt < policy.maxRetries + 1 && !done
      invariant 0 <= attempt <= policy.maxRetries + 1
      invariant done ==> attempt < policy.maxRetries + 1 && extract(policy.validateCrc, member, attempt)
      invariant forall a :: 0 <= a < attempt ==> !extract(policy.validateCrc, member, a)
      decreases policy.maxRetries + 1 - attempt, if done then 0 else 1
    {
      if extract(policy.validateCrc, member, attempt) {
        done := true;
      } else {
        attempt := attempt + 1;
      }
    }
    tries := if done then attempt + 1 else attempt;
    if done {
      assert FirstSuccess(extract, policy.validateCrc, member, 0, policy.maxRetries + 1).Some?;
    }
  }

  /** One member of `_extract_members`: an unsafe member fails at once, without an attempt; a safe one
      goes through the retry loop. */
  method ExtractOne(policy: Policy, extract: Extractor, member: string) returns (good: bool, tries: nat)
    ensures good == Good(policy, extract, member)
    ensures tries <= if IsSafeMember(member) then policy.maxRetries + 1 else 0
  {
    good, tries := false, 0;
    if IsSafeMember(member) {
      good, tries := Retry(policy, extract, member);
    }
  }

  /** `_extract_members`, as the loop runs it: the members in order, each retried until an attempt
      succeeds or the budget is spent. It computes the member-by-member outcome and counts the
      extraction attempts it made: at most `maxRetries + 1` for each safe member of the batch, and
      none for an unsafe one, which is failed before it reaches the extractor. */
  method ExtractMembers(members: seq<string>, policy: Policy, extract: Extractor)
    returns (r: Result<BatchResult, Error>, attempts: nat)
    ensures r == ExtractAll(members, policy, extract)
    ensures attempts <= SafeCount(members) * (policy.maxRetries + 1)
  {
    var ok: seq<string> := [];
    var failed: seq<string> := [];
    var i := 0;
    attempts := 0;
    assert members[0..] == members;
    CombineNothing(ExtractAll(members, policy, extract));
    while i < |members|
      invariant 0 <= i <= |members|
      invariant Combine(BatchResult(ok, failed), ExtractAll(members[i..], policy, extract))
        == ExtractAll(members, policy, extract)
      invariant attempts + AttemptBudget(members[i..], policy.maxRetries + 1)
        <= AttemptBudget(members, policy.maxRetries + 1)
      decreases |members| - i
    {
      var m := members[i];
      CombineStep(BatchResult(ok, failed), members[i..], policy, extract);
      assert members[i..][0] == m;
      assert members[i..][1..] == members[i + 1..];
      var good, tries := ExtractOne(policy, extract, m);
      AttemptBudgetStep(members, i, policy.maxRetries + 1);
      attempts := attempts + tries;
      if good {
        ok := ok + [m];
      } else {
        failed := failed + [m];
        if policy.onError == Abort {
          WithinBudget(attempts, members[i + 1..], members, policy.maxRetries + 1);
          return Failure(AbortError(m)), attempts;
        }
      }
      i := i + 1;
    }
    assert members[i..] == [];
    WithinBudget(attempts, members[i..], members, policy.maxRetries + 1);
    assert ok + [] == ok && failed + [] == failed;
    r := Success(BatchResult(ok, failed));
  }

  /** The number of safe members of a batch: the members that reach the extractor. */
  function SafeCount(members: seq<string>): nat
    decreases |members|
  {
    if |members| == 0 then 0
    else (if IsSafeMember(members[0]) then 1 else 0) + SafeCount(members[1..])
  }

  /** The safe members counted are the safe members kept by the filter. */
  lemma {:induction false} SafeCountFilter(members: seq<string>)
    ensures SafeCount(members) == |Filter(members, IsSafeMember)|
    ensures SafeCount(members) <= |members|
    decreases |members|
  {
    if |members| > 0 {
      SafeCountFilter(members[1..]);
    }
  }

  /** The attempts a batch may spend: `perMember` for each safe member, none for an unsafe one. */
  function AttemptBudget(members: seq<string>, perMember: nat): nat
    decreases |members|
  {
    if |members| == 0 then 0
    else (if IsSafeMember(members[0]) then perMember else 0) + AttemptBudget(members[1..], perMember)
  }

  /** The budget is the per-member allowance times the number of safe members. */
  lemma {:induction false} AttemptBudgetIsProduct(members: seq<string>, perMember: nat)
    ensures AttemptBudget(members, perMember) == SafeCount(members) * perMember
    decreases |members|
  {
    if |members| > 0 {
      AttemptBudgetIsProduct(members[1..], perMember);
      var c := if IsSafeMember(members[0]) then 1 else 0;
      assert (c + SafeCount(members[1..])) * perMember == c * perMember + SafeCount(members[1..]) * perMember;
    }
  }

  /** The budget of the members from `i` on: the allowance of member `i`, then the rest. */
  lemma AttemptBudgetStep(members: seq<string>, i: nat, perMember: nat)
    requires i < |members|
    ensures AttemptBudget(members[i..], perMember) ==
      (if IsSafeMember(members[i]) then perMember else 0) + AttemptBudget(members[i + 1..], perMember)
  {
    assert members[i..][0] == members[i];
    assert members[i..][1..] == members[i + 1..];
  }

  /** Attempts that leave the budget of some remaining members unspent are within the budget of the
      batch's safe members. */
  lemma WithinBudget(attempts: nat, rest: seq<string>, members: seq<string>, perMember: nat)
    requires attempts + AttemptBudget(rest, perMember) <= AttemptBudget(members, perMember)
    ensures attempts <= SafeCount(members) * perMember
  {
    AttemptBudgetIsProduct(members, perMember);
  }

  /** A batch that completes sorts every member: the extracted ones are the good members of the batch,
      the failed ones the rest; a batch that raises names an unsafe member or one that could not be
      extracted. */
  lemma {:induction false} ExtractAllMembers(members: seq<string>, policy: Policy, extract: Extractor)
    ensures var r := ExtractAll(members, policy, extract);
      r.Success? ==>
        && (forall x :: x in r.value.ok <==> x in members && Good(policy, extract, x))
        && (forall x :: x in r.value.failed <==> x in members && !Good(policy, extract, x))
    ensures var r := ExtractAll(members, policy, extract);
      r.Failure? ==> r.error.UnsafeMember? || r.error.ExtractionFailed?
    decreases |members|
  {
    if |members| > 0 {
      ExtractAllMembers(members[1..], policy, extract);
      assert forall x :: x in members <==> x == members[0] || x in members[1..];
    }
  }

  /** Under the skip policy a batch never fails: the members written out are exactly the good ones and
      the failed ones exactly the rest, each in batch order. */
  lemma {:induction false} SkipPartitions(members: seq<string>, policy: Policy, extract: Extractor)
    requires policy.onError == Skip
    ensures ExtractAll(members, policy, extract).Success?
    ensures ExtractAll(members, policy, extract).value.ok == Filter(members, m => Good(policy, extract, m))
    ensures ExtractAll(members, policy, extract).value.failed == Filter(members, m => !Good(policy, extract, m))
    decreases |members|
  {
    if |members| > 0 {
      SkipPartitions(members[1..], policy, extract);
    }
  }

  /** One member under the abort policy: a good member is written out ahead of the rest of the batch,
      a bad one ends the batch with its error. */
  lemma AbortStep(members: seq<string>, policy: Policy, extract: Extractor)
    requires policy.onError == Abort && |members| > 0
    ensures var m := members[0];
      var rest := ExtractAll(members[1..], policy, extract);
      ExtractAll(members, policy, extract) ==
        if !Good(policy, extract, m) then Failure(AbortError(m))
        else if rest.Failure? then rest
        else Success(BatchResult([m] + rest.value.ok, rest.value.failed))
  {
  }

  /** Under the abort policy a batch succeeds exactly when every member is good, and then every member
      is written out and none is recorded as failed. */
  lemma {:induction false} AbortAllOrNothing(members: seq<string>, policy: Policy, extract: Extractor)
    requires policy.onError == Abort
    ensures ExtractAll(members, policy, extract).Success? <==>
      forall k :: 0 <= k < |members| ==> Good(policy, extract, members[k])
    ensures ExtractAll(members, policy, extract).Success? ==>
      ExtractAll(members, policy, extract).value == BatchResult(members, [])
    decreases |members|
  {
    if |members| > 0 {
      var m := members[0];
      var rest := members[1..];
      AbortStep(members, policy, extract);
      if Good(policy, extract, m) {
        AbortAllOrNothing(rest, policy, extract);
        assert (forall k :: 0 <= k < |members| ==> Good(policy, extract, members[k])) <==>
          (forall k :: 0 <= k < |rest| ==> Good(policy, extract, rest[k])) by {
          assert forall k :: 1 <= k < |members| ==> members[k] == rest[k - 1];
        }
        assert [m] + rest == members;
      } else {
        assert !Good(policy, extract, members[0]);
      }
    }
  }

  /** The error an aborted batch raises for its first bad member. */
  function AbortError(member: string): Error {
    if IsSafeMember(member) then ExtractionFailed(member) else UnsafeMember(member)
  }

  /** Under the abort policy a failing batch names its first bad member: every member before it is
      good, and the error says whether the member was unsafe or could not be extracted. */
  lemma {:induction false} AbortNamesFirstBad(members: seq<string>, policy: Policy, extract: Extractor)
    requires policy.onError == Abort
    requires ExtractAll(members, policy, extract).Failure?
    ensures exists k ::
      && 0 <= k < |members|
      && !Good(policy, extract, members[k])
      && (forall j :: 0 <= j < k ==> Good(policy, extract, members[j]))
      && ExtractAll(members, policy, extract).error == AbortError(members[k])
    decreases |members|
  {
    if Good(policy, extract, members[0]) {
      AbortNamesFirstBad(members[1..], policy, extract);
      var k :|
        && 0 <= k < |members[1..]|
        && !Good(policy, extract, members[1..][k])
        && (forall j :: 0 <= j < k ==> Good(policy, extract, members[1..][j]))
        && ExtractAll(members[1..], policy, extract).error == AbortError(members[1..][k]);
      assert members[k + 1] == members[1..][k];
      assert forall j :: 1 <= j < k + 1 ==> members[j] == members[1..][j - 1];
    } else {
      assert !Good(policy, extract, members[0]);
    }
  }

  /** Size of one mebibyte. */
  const MiB: nat := 1024 * 1024

  /** The fixed headroom the preflight adds to the estimate. */
  const Headroom: nat := 16 * MiB

  /** The uncompressed size of a batch, a member missing from the archive's directory counting 0. */
  function TotalSize(batch: seq<string>, sizes: map<string, nat>): nat
    decreases |batch|
  {
    if |batch| == 0 then 0
    else (if batch[0] in sizes then sizes[batch[0]] else 0) + TotalSize(batch[1..], sizes)
  }

  /** The space the preflight asks for: the uncompressed size with a 5% margin, truncated, plus the
      headroom. */
  function Needed(total: nat): nat {
    total * 105 / 100 + Headroom
  }

  /** `_preflight_space`: fail before writing anything when the free space in the extraction folder is
      below the estimate. */
  function Preflight(batch: seq<string>, sizes: map<string, nat>, free: int): (r: Result<(), Error>)
    ensures r.Failure? ==> r.error == InsufficientSpace(Needed(TotalSize(batch, sizes)), free)
  {
    var needed := Needed(TotalSize(batch, sizes));
    if free < needed then Failure(InsufficientSpace(needed, free)) else Success(())
  }

  /** The margin is a twentieth of the total, rounded down: the preflight passes exactly when the free
      space covers the total, a twentieth of it and the headroom. */
  lemma PreflightIff(batch: seq<string>, sizes: map<string, nat>, free: int)
    ensures Preflight(batch, sizes, free).Success? <==>
      free >= TotalSize(batch, sizes) + TotalSize(batch, sizes) / 20 + Headroom
  {
    var t := TotalSize(batch, sizes);
    var q := t / 20;
    assert t == 20 * q + t % 20;
    assert t * 105 == 100 * (t + q) + 5 * (t % 20);
    assert 0 <= 5 * (t % 20) < 100;
  }

  /** The size of two batches together is the sum of their sizes. */
  lemma {:induction false} TotalSizeConcat(a: seq<string>, b: seq<string>, sizes: map<string, nat>)
    ensures TotalSize(a + b, sizes) == TotalSize(a, sizes) + TotalSize(b, sizes)
    decreases |a|
  {
    if |a| == 0 {
      assert a + b == b;
    } else {
      assert (a + b)[0] == a[0];
      assert (a + b)[1..] == a[1..] + b;
      TotalSizeConcat(a[1..], b, sizes);
    }
  }

  /** Only members the archive lists contribute, and each contributes its size: a batch of unknown names
      needs only the headroom. */
  lemma {:induction false} TotalSizeUnknown(batch: seq<string>, sizes: map<string, nat>)
    requires forall k :: 0 <= k < |batch| ==> batch[k] !in sizes
    ensures TotalSize(batch, sizes) == 0
    ensures Needed(TotalSize(batch, sizes)) == Headroom
    decreases |batch|
  {
    if |batch| > 0 {
      TotalSizeUnknown(batch[1..], sizes);
    }
  }
}
