/** The extension filter: `_normalize_extensions`, how the filter is saved and loaded, and which archive
    files the iterator keeps. */
module Extensions {
  import opened Wrappers
  import opened Text
  import opened Seqs
  import opened Paths

  /** What a normalised extension looks like: a leading dot, no capital letters, no whitespace at
      either end. */
  predicate IsCanonicalExt(e: string) {
    e != [] && e[0] == '.' && !IsSpace(e[|e| - 1]) &&
    forall i :: 0 <= i < |e| ==> !('A' <= e[i] <= 'Z')
  }

  /** A non-blank lower-case text given a leading dot when it lacks one is a canonical extension. */
  lemma DotPrefixedIsCanonical(t: string)
    requires t != [] && !IsSpace(t[|t| - 1])
    requires forall i :: 0 <= i < |t| ==> !('A' <= t[i] <= 'Z')
    ensures IsCanonicalExt(if StartsWith(t, ".") then t else "." + t)
  {
    if !StartsWith(t, ".") {
      var r := "." + t;
      assert forall i :: 1 <= i < |r| ==> r[i] == t[i - 1];
      assert r[|r| - 1] == t[|t| - 1];
    }
  }

  /** One entry of the extension list stripped, lowered and given a leading dot; "" for a blank entry,
      which the normalisation skips. */
  function CanonExt(e: string): (r: string)
    ensures r == "" <==> Strip(e) == ""
    ensures r != "" ==> IsCanonicalExt(r)
  {
    var t := Lower(Strip(e));
    if t == "" then ""
    else
      assert !IsSpace(t[|t| - 1]) by {
        assert t[|t| - 1] == AsciiLower(Strip(e)[|t| - 1]);
      }
      DotPrefixedIsCanonical(t);
      if StartsWith(t, ".") then t else "." + t
  }

  /** A canonical extension normalises to itself. */
  lemma CanonExtIdempotent(e: string)
    requires IsCanonicalExt(e)
    ensures CanonExt(e) == e
  {
    StripFixpoint(e);
    assert Lower(e) == e;
    assert e[..1] == ".";
  }

  /** The set of normalised non-blank entries of a list. */
  function NormalizedSet(es: seq<string>): (s: set<string>)
    ensures forall x :: x in s <==> exists k :: 0 <= k < |es| && CanonExt(es[k]) == x && x != ""
  {
    set k | 0 <= k < |es| && CanonExt(es[k]) != "" :: CanonExt(es[k])
  }

  /** `_normalize_extensions`: `None` stays `None`; otherwise the set of normalised non-blank entries,
      and `None` again when every entry is blank. */
  function NormalizeExtensions(exts: Option<seq<string>>): (r: Option<set<string>>)
    ensures exts.None? ==> r.None?
    ensures r.Some? ==> r.value != {} && forall x :: x in r.value ==> IsCanonicalExt(x)
    ensures r.Some? ==> exts.Some?
    ensures r.Some? ==> forall x :: x in r.value <==>
      exists k :: 0 <= k < |exts.value| && CanonExt(exts.value[k]) == x && x != ""
    ensures exts.Some? && r.None? ==> forall k :: 0 <= k < |exts.value| ==> Strip(exts.value[k]) == ""
  {
    match exts
    case None => None
    case Some(es) =>
      var s := NormalizedSet(es);
      if s == {} then
        assert forall k :: 0 <= k < |es| ==> CanonExt(es[k]) !in s;
        None
      else Some(s)
  }

  /** Normalising the entries of an already normalised filter, in any order and with repetitions,
      gives the same filter back. */
  lemma NormalizeIdempotent(exts: Option<seq<string>>, again: seq<string>)
    requires NormalizeExtensions(exts).Some?
    requires forall x :: x in again <==> x in NormalizeExtensions(exts).value
    ensures NormalizeExtensions(Some(again)) == NormalizeExtensions(exts)
  {
    var s := NormalizeExtensions(exts).value;
    forall k | 0 <= k < |again|
      ensures CanonExt(again[k]) == again[k]
    {
      CanonExtIdempotent(again[k]);
    }
    var s2 := NormalizedSet(again);
    forall x | x in s
      ensures x in s2
    {
      var k :| 0 <= k < |again| && again[k] == x;
      assert CanonExt(again[k]) == x;
    }
    assert s2 == s;
  }

  /** The filter as the state file stores it: the sorted list of extensions, or `[]` when there is no
      filter. The list's order plays no part in loading, so the model keeps its elements only. */
  function SavedExtensions(exts: Option<set<string>>): set<string> {
    if exts.Some? then exts.value else {}
  }

  /** The filter read back from a state file: `set(saved) or None`. */
  function LoadedExtensions(saved: set<string>): (r: Option<set<string>>)
    ensures r.Some? <==> saved != {}
  {
    if saved == {} then None else Some(saved)
  }

  /** Any filter `_normalize_extensions` produces survives a save and a load unchanged. */
  lemma ExtensionsRoundTrip(exts: Option<seq<string>>)
    ensures LoadedExtensions(SavedExtensions(NormalizeExtensions(exts))) == NormalizeExtensions(exts)
  {
  }

  /** Whether a file passes the filter: every file when there is none, otherwise those whose
      lower-cased `splitext` extension is in the set (an empty set counts as no filter). */
  predicate MatchesFilter(exts: Option<set<string>>, f: string) {
    exts.None? || exts.value == {} || Lower(Extension(f)) in exts.value
  }

  /** The files the iterator will walk: the scanned files that are safe members and pass the filter,
      in scan order. */
  function Candidates(files: seq<string>, exts: Option<set<string>>): (r: seq<string>)
    ensures |r| <= |files|
    ensures forall f :: f in r <==> f in files && IsSafeMember(f) && MatchesFilter(exts, f)
  {
    Filter(Filter(files, IsSafeMember), f => MatchesFilter(exts, f))
  }

  /** Without a filter, the candidates are exactly the safe files, in order; so a scan of safe files
      is kept whole. */
  lemma {:induction false} CandidatesWithoutFilter(files: seq<string>)
    requires forall k :: 0 <= k < |files| ==> IsSafeMember(files[k])
    ensures Candidates(files, None) == files
  {
    FilterAll(files, IsSafeMember);
    FilterAll(files, f => MatchesFilter(None, f));
  }

  /** Candidates of a concatenated scan are the candidates of each part. */
  lemma CandidatesConcat(a: seq<string>, b: seq<string>, exts: Option<set<string>>)
    ensures Candidates(a + b, exts) == Candidates(a, exts) + Candidates(b, exts)
  {
    FilterConcat(a, b, IsSafeMember);
    FilterConcat(Filter(a, IsSafeMember), Filter(b, IsSafeMember), f => MatchesFilter(exts, f));
  }
}
