/** The path layer: lexical normalisation of relative POSIX paths, `_resolve`, `pwd`, the traversal check
    `_is_safe_member` and `posixpath.splitext`. */
module Paths {
  import opened Wrappers
  import opened Errors
  import opened Text
  import opened Seqs

  /** A component that pathlib and normpath keep: non-empty, not ".", no slash. */
  predicate IsPart(p: string) {
    p != "" && p != "." && '/' !in p
  }

  /** The pieces of a split that survive parsing: empty pieces (from repeated slashes) and "." go. */
  predicate Kept(p: string) {
    p != "" && p != "."
  }

  /** The components of a relative path as `PurePosixPath` parses it, which is also how `normpath`
      splits it. ".." is a component like any other at this stage. */
  function PureParts(s: string): (parts: seq<string>)
    ensures forall k :: 0 <= k < |parts| ==> IsPart(parts[k])
  {
    var pieces := Split(s, '/');
    var parts := Filter(pieces, Kept);
    assert forall k :: 0 <= k < |parts| ==> parts[k] in pieces;
    parts
  }

  /** Every ".." comes before every other component. */
  predicate DotDotsLead(r: seq<string>) {
    forall i, j :: 0 <= i < j < |r| && r[j] == ".." ==> r[i] == ".."
  }

  /** The ".." rule of `posixpath.normpath` for a relative path, read left to right: a ".." removes the
      component before it, unless there is none or that one is itself "..", in which case it stays. */
  function Collapse(parts: seq<string>): (r: seq<string>)
    ensures |r| <= |parts|
    ensures forall k :: 0 <= k < |r| ==> r[k] in parts
    ensures DotDotsLead(r)
    decreases |parts|
  {
    if |parts| == 0 then []
    else
      var init := parts[..|parts| - 1];
      var acc := Collapse(init);
      var c := parts[|parts| - 1];
      assert forall x :: x in init ==> x in parts;
      if c != ".." || |acc| == 0 || acc[|acc| - 1] == ".." then
        assert c == ".." ==> forall i :: 0 <= i < |acc| ==> acc[i] == "..";
        acc + [c]
      else
        acc[..|acc| - 1]
  }

  /** Without any "..", collapsing changes nothing. */
  lemma {:induction false} CollapseNoDotDot(parts: seq<string>)
    requires ".." !in parts
    ensures Collapse(parts) == parts
    decreases |parts|
  {
    if |parts| > 0 {
      var init := parts[..|parts| - 1];
      assert forall x :: x in init ==> x in parts;
      CollapseNoDotDot(init);
      assert init + [parts[|parts| - 1]] == parts;
    }
  }

  /** `str(PurePosixPath(...))` of relative components: "." when there are none. */
  function PosixStr(parts: seq<string>): (s: string)
    requires forall k :: 0 <= k < |parts| ==> IsPart(parts[k])
    ensures s != [] && s[0] != '/'
  {
    if |parts| == 0 then "."
    else
      var s := Join(parts, '/');
      assert IsPart(parts[0]) && s[..|parts[0]|] == parts[0];
      assert s[0] == parts[0][0];
      s
  }

  /** Parsing the rendering of components gives back the components. */
  lemma PurePartsOfPosixStr(parts: seq<string>)
    requires forall k :: 0 <= k < |parts| ==> IsPart(parts[k])
    ensures PureParts(PosixStr(parts)) == parts
  {
    if |parts| == 0 {
      SplitNoSeparator(".", '/');
    } else {
      SplitJoin(parts, '/');
      FilterAll(parts, Kept);
    }
  }

  predicate IsRelative(s: string) {
    !StartsWith(s, "/")
  }

  /** `posixpath.normpath` of a string that does not start with a slash: components split on "/",
      empty and "." components dropped, ".." collapsed, "." for an empty result. */
  function NormPath(s: string): (r: string)
    requires IsRelative(s)
    ensures r != [] && r[0] != '/'
  {
    var parts := Collapse(PureParts(s));
    assert forall k :: 0 <= k < |parts| ==> IsPart(parts[k]);
    PosixStr(parts)
  }

  /** The input with backslashes read as slashes (`path.replace("\\", "/")`). */
  function Converted(path: string): string {
    ReplaceChar(path, '\\', '/')
  }

  /** Whether the input, after backslash conversion, explicitly ends in a slash. */
  predicate HadTrailing(path: string) {
    var p := Converted(path);
    p != [] && p[|p| - 1] == '/'
  }

  /** The components `_resolve` hands to `normpath`: those of the current directory for an empty input,
      those of the input alone for an absolute input (`relative_to("/")`), and the current directory's
      followed by the input's otherwise. */
  function JoinedParts(cwd: string, path: string): (parts: seq<string>)
    ensures forall k :: 0 <= k < |parts| ==> IsPart(parts[k])
  {
    var p := Converted(path);
    if p == [] then PureParts(cwd)
    else if p[0] == '/' then PureParts(p)
    else PureParts(cwd) + PureParts(p)
  }

  /** `_resolve`: turns a user path into the canonical path inside the archive, relative to the current
      directory `cwd`, or fails with `ValueError` when the result would climb out of the root. The root
      is "". An empty input stands for Python's `None` too: both resolve to the current directory. */
  function Resolve(cwd: string, path: string): (r: Result<string, Error>)
    requires IsRelative(cwd)
  {
    var s0 := NormPath(PosixStr(JoinedParts(cwd, path)));
    var s := if s0 == "." then "" else s0;
    if StartsWith(s, "..") then Failure(InvalidPath)
    else if HadTrailing(path) && s != "" && !EndsWith(s, "/") then Success(s + "/")
    else Success(s)
  }

  /** The path without its trailing slash, if it has one. */
  function Body(r: string): string {
    if |r| > 0 && r[|r| - 1] == '/' then r[..|r| - 1] else r
  }

  /** The shape of a resolved path: the root "", or components joined by single slashes, none of them
      empty, "." or "..", optionally followed by one slash. */
  predicate IsCanonical(r: string) {
    r == "" ||
    (Body(r) != "" &&
     var ps := Split(Body(r), '/');
     forall k :: 0 <= k < |ps| ==> IsPart(ps[k]) && ps[k] != "..")
  }

  /** What the current directory can hold: a canonical path that `_resolve` would not reject. */
  predicate IsCwd(c: string) {
    IsCanonical(c) && !StartsWith(c, "..")
  }

  /** The text of a collapsed path: "" for the root, the components joined by slashes otherwise. */
  lemma NormPathOfJoined(parts: seq<string>)
    requires forall k :: 0 <= k < |parts| ==> IsPart(parts[k])
    ensures var c := Collapse(parts);
            NormPath(PosixStr(parts)) == if c == [] then "." else Join(c, '/')
  {
    PurePartsOfPosixStr(parts);
  }

  /** A non-empty join of components that does not start with ".." has no ".." at all, does not end
      in a slash and splits back into its components. */
  lemma JoinedCollapseIsCanonical(c: seq<string>)
    requires |c| >= 1 && DotDotsLead(c)
    requires forall k :: 0 <= k < |c| ==> IsPart(c[k])
    requires !StartsWith(Join(c, '/'), "..")
    ensures forall k :: 0 <= k < |c| ==> c[k] != ".."
    ensures var s := Join(c, '/');
            |s| >= 1 && s[|s| - 1] != '/' && Split(s, '/') == c && !StartsWith(s, "/")
  {
    var s := Join(c, '/');
    assert IsPart(c[0]) && IsPart(c[|c| - 1]);
    assert s[..|c[0]|] == c[0];
    assert c[0] != "..";
    JoinLast(c, '/');
    SplitJoin(c, '/');
  }

  /** The end of `_resolve` once `normpath` has collapsed the components to `c`: "" for the root, the
      ".." prefix test, and the trailing slash put back when the input had one. */
  function Rendered(c: seq<string>, trailing: bool): Result<string, Error> {
    var s := if c == [] then "" else Join(c, '/');
    if StartsWith(s, "..") then Failure(InvalidPath)
    else if trailing && s != "" && !EndsWith(s, "/") then Success(s + "/")
    else Success(s)
  }

  /** `_resolve` is the rendering of the collapsed components of the joined path. */
  lemma ResolveByParts(cwd: string, path: string)
    requires IsRelative(cwd)
    ensures Resolve(cwd, path) == Rendered(Collapse(JoinedParts(cwd, path)), HadTrailing(path))
  {
    var parts := JoinedParts(cwd, path);
    var c := Collapse(parts);
    NormPathOfJoined(parts);
    if c != [] {
      assert IsPart(c[0]);
      var s := Join(c, '/');
      if |c| == 1 {
        assert s == c[0];
      } else {
        assert s == c[0] + ['/'] + Join(c[1..], '/');
      }
      assert s != ".";
    }
  }

  /** Components joined by slashes, optionally followed by one more slash, form a canonical path,
      provided none of them is "..". */
  lemma CanonicalOfJoin(c: seq<string>, trailing: bool)
    requires |c| >= 1
    requires forall k :: 0 <= k < |c| ==> IsPart(c[k]) && c[k] != ".."
    ensures IsCanonical(Join(c, '/') + (if trailing then "/" else ""))
  {
    var s := Join(c, '/');
    assert IsPart(c[|c| - 1]);
    JoinLast(c, '/');
    SplitJoin(c, '/');
    var r := s + (if trailing then "/" else "");
    assert Body(r) == s by {
      if trailing {
        assert r[..|r| - 1] == s;
      } else {
        assert r == s;
      }
    }
    assert Split(Body(r), '/') == c;
  }

  /** Appending a slash to a path that does not end in one keeps its first characters and decides
      its last one. */
  lemma AppendSlashShape(s: string, trailing: bool)
    requires |s| >= 1 && s[|s| - 1] != '/'
    requires IsRelative(s) && !StartsWith(s, "..")
    ensures var r := s + (if trailing then "/" else "");
            !StartsWith(r, "..") && IsRelative(r) && (EndsWith(r, "/") <==> trailing)
  {
    if trailing {
      var r := s + "/";
      assert r[|r| - 1..] == "/";
      assert r[..1] == s[..1];
      if |s| >= 2 {
        assert r[..2] == s[..2];
      } else {
        assert r[0] == s[0];
      }
    } else {
      assert s[|s| - 1..] != "/" by { assert s[|s| - 1..][0] == s[|s| - 1]; }
    }
  }

  /** A successful rendering of collapsed components is a canonical path that is not the parent of
      the root, with a trailing slash exactly when one was asked for and the path is not the root. */
  lemma RenderedIsCwd(c: seq<string>, trailing: bool)
    requires DotDotsLead(c)
    requires forall k :: 0 <= k < |c| ==> IsPart(c[k])
    requires Rendered(c, trailing).Success?
    ensures var r := Rendered(c, trailing).value;
            IsCwd(r) && IsRelative(r) && (EndsWith(r, "/") <==> trailing && r != "")
  {
    if c != [] {
      var s := Join(c, '/');
      JoinedCollapseIsCanonical(c);
      assert Rendered(c, trailing).value == s + (if trailing then "/" else "");
      CanonicalOfJoin(c, trailing);
      AppendSlashShape(s, trailing);
    }
  }

  /** `_resolve` never leaves the root: a successful result is canonical, does not start with "..",
      and ends in a slash exactly when the input did and the result is not the root. */
  lemma ResolveStaysInRoot(cwd: string, path: string)
    requires IsRelative(cwd)
    requires Resolve(cwd, path).Success?
    ensures var r := Resolve(cwd, path).value;
            IsCwd(r) && IsRelative(r) && (EndsWith(r, "/") <==> HadTrailing(path) && r != "")
  {
    var c := Collapse(JoinedParts(cwd, path));
    ResolveByParts(cwd, path);
    assert forall k :: 0 <= k < |c| ==> IsPart(c[k]);
    RenderedIsCwd(c, HadTrailing(path));
  }

  /** Rendering fails exactly when the first collapsed component begins with "..". */
  lemma RenderedFailsExactly(c: seq<string>, trailing: bool)
    requires forall k :: 0 <= k < |c| ==> IsPart(c[k])
    ensures Rendered(c, trailing).Failure? <==> |c| >= 1 && StartsWith(c[0], "..")
  {
    if |c| >= 1 {
      var s := Join(c, '/');
      if |c[0]| < 2 {
        assert |c[0]| == 1;
        if |c| > 1 {
          assert s == c[0] + ['/'] + Join(c[1..], '/');
          assert s[1] == '/';
        } else {
          assert s == c[0];
        }
      } else {
        assert s[..2] == c[0][..2];
      }
    }
  }

  /** `_resolve` fails exactly when the collapsed path begins with "..": a ".." that climbs out of the
      root, or, because the check is a raw prefix test, a first component such as "..foo". */
  lemma ResolveFailsExactly(cwd: string, path: string)
    requires IsRelative(cwd)
    ensures var c := Collapse(JoinedParts(cwd, path));
            Resolve(cwd, path).Failure? <==> |c| >= 1 && StartsWith(c[0], "..")
  {
    var c := Collapse(JoinedParts(cwd, path));
    ResolveByParts(cwd, path);
    assert forall k :: 0 <= k < |c| ==> IsPart(c[k]);
    RenderedFailsExactly(c, HadTrailing(path));
  }

  /** Backslashes and slashes are interchangeable in the input. */
  lemma ResolveBackslashes(cwd: string, path: string)
    requires IsRelative(cwd)
    ensures Resolve(cwd, path) == Resolve(cwd, Converted(path))
  {
    ReplaceCharIdempotent(path, '\\', '/');
    assert JoinedParts(cwd, path) == JoinedParts(cwd, Converted(path));
    assert HadTrailing(path) == HadTrailing(Converted(path));
    ResolveByParts(cwd, path);
    ResolveByParts(cwd, Converted(path));
  }

  /** An absolute input resolves the same from every current directory. */
  lemma ResolveAbsoluteIgnoresCwd(cwd1: string, cwd2: string, path: string)
    requires IsRelative(cwd1) && IsRelative(cwd2)
    requires StartsWith(Converted(path), "/")
    ensures Resolve(cwd1, path) == Resolve(cwd2, path)
  {
    assert JoinedParts(cwd1, path) == JoinedParts(cwd2, path);
    ResolveByParts(cwd1, path);
    ResolveByParts(cwd2, path);
  }

  /** A trailing slash adds no component. */
  lemma PurePartsTrailingSlash(b: string)
    ensures PureParts(b + "/") == PureParts(b)
  {
    var ps := Split(b, '/');
    JoinSplit(b, '/');
    assert forall k :: 0 <= k < |ps| ==> '/' !in ps[k];
    assert b + "/" == Join(ps, '/') + ['/'] + "";
    SplitAfterPieces(ps, "");
    assert Split("", '/') == [""];
    FilterConcat(ps, [""], Kept);
    assert Filter([""], Kept) == [];
  }

  /** The components of a path whose pieces are all proper components are its pieces. */
  lemma PurePartsOfPieces(b: string)
    requires forall k :: 0 <= k < |Split(b, '/')| ==> IsPart(Split(b, '/')[k])
    ensures PureParts(b) == Split(b, '/')
    ensures Join(Split(b, '/'), '/') == b
  {
    JoinSplit(b, '/');
    FilterAll(Split(b, '/'), Kept);
  }

  /** Such a path is neither empty nor starts or ends with a slash. */
  lemma PiecesShape(b: string)
    requires forall k :: 0 <= k < |Split(b, '/')| ==> IsPart(Split(b, '/')[k])
    ensures b != "" && b[0] != '/' && b[|b| - 1] != '/'
  {
    var ps := Split(b, '/');
    JoinSplit(b, '/');
    assert IsPart(ps[0]) && IsPart(ps[|ps| - 1]);
    JoinLast(ps, '/');
    assert b[..|ps[0]|] == ps[0];
    assert b[0] == ps[0][0];
  }

  /** The components of a non-root canonical path are those of its body. */
  lemma PurePartsOfCanonical(r: string)
    requires IsCanonical(r) && r != ""
    ensures PureParts(r) == Split(Body(r), '/')
    ensures Join(Split(Body(r), '/'), '/') == Body(r)
    ensures IsRelative(r) && Body(r)[|Body(r)| - 1] != '/'
  {
    var b := Body(r);
    PurePartsOfPieces(b);
    PiecesShape(b);
    if r[|r| - 1] == '/' {
      assert r == b + "/";
      PurePartsTrailingSlash(b);
    } else {
      assert r == b;
    }
  }

  /** Splitting a joined path followed by a slash and more text. */
  lemma {:induction false} SplitAfterPieces(ps: seq<string>, b: string)
    requires |ps| >= 1
    requires forall k :: 0 <= k < |ps| ==> '/' !in ps[k]
    ensures Split(Join(ps, '/') + ['/'] + b, '/') == ps + Split(b, '/')
    decreases |ps|
  {
    if |ps| == 1 {
      SplitAfterPiece(ps[0], b, '/');
    } else {
      var rest := Join(ps[1..], '/');
      assert Join(ps, '/') + ['/'] + b == ps[0] + ['/'] + (rest + ['/'] + b);
      SplitAfterPiece(ps[0], rest + ['/'] + b, '/');
      SplitAfterPieces(ps[1..], b);
      assert [ps[0]] + ps[1..] == ps;
    }
  }

  /** An empty input (or `None`) resolves to the current directory, without its trailing slash. */
  lemma ResolveEmptyIsCwd(cwd: string)
    requires IsCwd(cwd)
    ensures IsRelative(cwd)
    ensures Resolve(cwd, "") == Success(Body(cwd))
  {
    assert IsRelative(cwd) by {
      if cwd != "" {
        PurePartsOfCanonical(cwd);
      }
    }
    ResolveByParts(cwd, "");
    assert Converted("") == "";
    assert JoinedParts(cwd, "") == PureParts(cwd);
    if cwd == "" {
      PurePartsOfRoot();
    } else {
      RenderedCanonical(cwd);
    }
  }

  /** A leading slash adds no component. */
  lemma PurePartsLeadingSlash(r: string)
    ensures PureParts("/" + r) == PureParts(r)
  {
    assert "/" + r == "" + ['/'] + r;
    SplitAfterPiece("", r, '/');
    FilterConcat([""], Split(r, '/'), Kept);
    assert Filter([""], Kept) == [];
  }

  /** A canonical path has no ".." to collapse. */
  lemma CollapseCanonical(r: string)
    requires IsCanonical(r) && r != ""
    ensures Collapse(PureParts(r)) == Split(Body(r), '/')
  {
    PurePartsOfCanonical(r);
    var ps := Split(Body(r), '/');
    assert ".." !in ps;
    CollapseNoDotDot(ps);
  }

  /** The body of a path that does not start with "..": neither does the body, it does not end in a
      slash when the body's own last character is not one, and the path is the body with its slash. */
  lemma BodyShape(r: string)
    requires r != "" && Body(r) != "" && Body(r)[|Body(r)| - 1] != '/'
    requires !StartsWith(r, "..")
    ensures var b := Body(r);
            !StartsWith(b, "..") && !EndsWith(b, "/") && r == b + (if r[|r| - 1] == '/' then "/" else "")
  {
    var b := Body(r);
    assert !EndsWith(b, "/") by { assert b[|b| - 1..][0] == b[|b| - 1]; }
    if |b| >= 2 {
      assert r[..2] == b[..2];
    }
  }

  /** Rendering the components of a canonical path gives back its body, or, with its own trailing
      slash, the path itself. */
  lemma RenderedCanonical(r: string)
    requires IsCwd(r) && r != ""
    ensures Rendered(Collapse(PureParts(r)), false) == Success(Body(r))
    ensures Rendered(Collapse(PureParts(r)), r[|r| - 1] == '/') == Success(r)
  {
    CollapseCanonical(r);
    PurePartsOfCanonical(r);
    BodyShape(r);
  }

  /** The components an absolute input contributes are those after its leading slash. */
  lemma JoinedPartsAbsolute(cwd: string, r: string)
    requires '\\' !in r
    ensures Converted("/" + r) == "/" + r
    ensures JoinedParts(cwd, "/" + r) == PureParts(r)
    ensures HadTrailing("/" + r) <==> r == "" || r[|r| - 1] == '/'
  {
    assert Converted("/" + r) == "/" + r;
    assert r != "" ==> ("/" + r)[|r|] == r[|r| - 1];
    PurePartsLeadingSlash(r);
  }

  /** A canonical path written as an absolute input resolves to itself from anywhere: resolution is
      idempotent. */
  lemma ResolveAbsoluteFixpoint(cwd: string, r: string)
    requires IsRelative(cwd)
    requires IsCwd(r) && '\\' !in r
    ensures Resolve(cwd, "/" + r) == Success(r)
  {
    ResolveByParts(cwd, "/" + r);
    JoinedPartsAbsolute(cwd, r);
    if r == "" {
      assert Split("", '/') == [""];
      assert PureParts(r) == [];
    } else {
      RenderedCanonical(r);
    }
  }

  /** Parsing components joined by slashes gives back the components. */
  lemma PurePartsOfJoin(parts: seq<string>)
    requires |parts| >= 1
    requires forall k :: 0 <= k < |parts| ==> IsPart(parts[k])
    ensures PureParts(Join(parts, '/')) == parts
  {
    SplitJoin(parts, '/');
    FilterAll(parts, Kept);
  }

  /** The root has no components. */
  lemma PurePartsOfRoot()
    ensures PureParts("") == []
  {
    assert Split("", '/') == [""];
    assert Filter([""], Kept) == [];
  }

  /** ".." from the root climbs out and is rejected. */
  lemma ResolveParentOfRoot()
    ensures Resolve("", "..").Failure?
  {
    PurePartsOfRoot();
    assert Converted("..") == "..";
    PurePartsOfJoin([".."]);
    assert JoinedParts("", "..") == [".."];
    ResolveFailsExactly("", "..");
  }

  /** The components of "a/../b" read from the root. */
  lemma JoinedPartsExample()
    ensures JoinedParts("", "a/../b") == ["a", "..", "b"]
    ensures !HadTrailing("a/../b")
  {
    var parts: seq<string> := ["a", "..", "b"];
    PurePartsOfRoot();
    assert Converted("a/../b") == "a/../b";
    assert PureParts("a/../b") == parts by {
      assert Join(parts, '/') == "a/../b" by {
        assert parts[1..][1..] == ["b"];
        assert Join(parts[1..], '/') == "../b";
      }
      PurePartsOfJoin(parts);
    }
  }

  /** ".." removes the component before it. */
  lemma CollapseParentExample()
    ensures Collapse(["a", ".."]) == []
  {
    var one: seq<string> := ["a"];
    var two: seq<string> := ["a", ".."];
    assert one[..0] == [];
    assert Collapse(one) == one;
    assert two[..1] == one;
  }

  /** A component after a removed one is kept. */
  lemma CollapseExample()
    ensures Collapse(["a", "..", "b"]) == ["b"]
    ensures Collapse(["a", ".."]) == []
  {
    CollapseParentExample();
    var three: seq<string> := ["a", "..", "b"];
    assert three[..2] == ["a", ".."];
  }

  /** "a/../b" collapses to "b". */
  lemma ResolveCollapsesExample()
    ensures Resolve("", "a/../b") == Success("b")
  {
    JoinedPartsExample();
    CollapseExample();
    ResolveByParts("", "a/../b");
  }

  /** The raw prefix test also rejects a name that merely begins with two dots. */
  lemma ResolveDotDotPrefixExample()
    ensures Resolve("", "..foo").Failure?
  {
    assert JoinedParts("", "..foo") == ["..foo"] by {
      PurePartsOfRoot();
      assert Converted("..foo") == "..foo";
      PurePartsOfJoin(["..foo"]);
    }
    ResolveFailsExactly("", "..foo");
  }

  /** `pwd`: the current directory rendered absolute, "/" for the root. */
  function Pwd(cwd: string): string {
    if cwd == "" then "/" else "/" + cwd
  }

  /** What `pwd` prints, resolved from anywhere, is the current directory again. */
  lemma PwdRoundTrip(anywhere: string, cwd: string)
    requires IsRelative(anywhere)
    requires IsCwd(cwd) && '\\' !in cwd
    ensures Pwd(cwd)[0] == '/'
    ensures Resolve(anywhere, Pwd(cwd)) == Success(cwd)
  {
    assert Pwd(cwd) == "/" + cwd;
    ResolveAbsoluteFixpoint(anywhere, cwd);
  }

  /** A Windows drive prefix such as "C:". */
  predicate HasDriveLetter(name: string) {
    |name| >= 2 && name[1] == ':' && IsAsciiAlpha(name[0])
  }

  /** `_is_safe_member`: rejects absolute names, drive-letter names and names whose normal form climbs
      out ("..", "../..."). A backslash counts only as the first character. */
  function IsSafeMember(name: string): bool {
    if StartsWith(name, "/") || StartsWith(name, "\\") then false
    else if HasDriveLetter(name) then false
    else
      var norm := NormPath(name);
      !(StartsWith(norm, "../") || norm == "..")
  }

  /** A path whose first component is `c0` begins with "../" or is ".." exactly when `c0` is "..". */
  lemma FirstPieceDotDot(s: string, c0: string)
    requires IsPart(c0) && |c0| <= |s| && s[..|c0|] == c0
    requires |s| == |c0| || s[|c0|] == '/'
    ensures StartsWith(s, "../") || s == ".." <==> c0 == ".."
  {
    if |c0| == 1 {
      assert c0 == [s[0]];
      assert c0 != ".";
    } else if |c0| == 2 {
      assert c0 == [s[0], s[1]];
      if c0 == ".." && |s| > 2 {
        assert s[..3] == [s[0], s[1], s[2]];
      }
      if StartsWith(s, "../") {
        assert s[..3] == [s[0], s[1], s[2]];
      }
    } else {
      assert s[2] == c0[2] && c0[2] != '/';
      assert s != ".." && !StartsWith(s, "../");
    }
  }

  /** A join of components begins with "../" or is ".." exactly when its first component is "..". */
  lemma JoinDotDotPrefix(c: seq<string>)
    requires |c| >= 1
    requires forall k :: 0 <= k < |c| ==> IsPart(c[k])
    ensures var s := Join(c, '/'); StartsWith(s, "../") || s == ".." <==> c[0] == ".."
  {
    var s := Join(c, '/');
    assert IsPart(c[0]) && s[..|c[0]|] == c[0];
    if |c| > 1 {
      assert s == c[0] + ['/'] + Join(c[1..], '/');
      assert s[|c[0]|] == '/';
    }
    FirstPieceDotDot(s, c[0]);
  }

  /** A member is safe exactly when it is not absolute, has no drive letter and its collapsed
      components hold no "..": extracting it below a directory never leaves that directory. */
  lemma SafeMemberIff(name: string)
    ensures IsSafeMember(name) <==>
      !StartsWith(name, "/") && !StartsWith(name, "\\") && !HasDriveLetter(name) &&
      ".." !in Collapse(PureParts(name))
  {
    if !StartsWith(name, "/") && !StartsWith(name, "\\") && !HasDriveLetter(name) {
      var c := Collapse(PureParts(name));
      assert forall k :: 0 <= k < |c| ==> IsPart(c[k]);
      if |c| >= 1 {
        assert NormPath(name) == Join(c, '/');
        JoinDotDotPrefix(c);
        assert ".." in c <==> c[0] == "..";
      } else {
        assert NormPath(name) == ".";
      }
    }
  }

  /** A member under ".." is unsafe. */
  lemma UnsafeParentExample()
    ensures !IsSafeMember("../evil.txt")
  {
    assert "../evil.txt" == Join(["..", "evil.txt"], '/');
    PurePartsOfJoin(["..", "evil.txt"]);
    assert Collapse([".."]) == [".."];
    assert ".." in Collapse(["..", "evil.txt"]);
    SafeMemberIff("../evil.txt");
  }

  /** A member with a drive letter is unsafe. */
  lemma UnsafeDriveExample()
    ensures !IsSafeMember("C:evil")
  {
    assert HasDriveLetter("C:evil");
  }

  /** "a/.." normalises to "." and stays inside, so it is safe. */
  lemma SafeMemberSelfExample()
    ensures IsSafeMember("a/..")
  {
    assert "a/.." == Join(["a", ".."], '/');
    PurePartsOfJoin(["a", ".."]);
    CollapseExample();
    SafeMemberIff("a/..");
  }

  /** A name that only begins with two dots is safe. */
  lemma SafeMemberDotsExample()
    ensures IsSafeMember("..foo")
  {
    PurePartsOfJoin(["..foo"]);
    assert Collapse(["..foo"]) == ["..foo"];
    SafeMemberIff("..foo");
  }

  /** The last index of `c` in `s`, or -1. */
  function LastIndexOf(s: string, c: char): (i: int)
    ensures -1 <= i < |s|
    ensures i >= 0 ==> s[i] == c
    ensures forall k :: i < k < |s| ==> s[k] != c
  {
    if |s| == 0 then -1
    else if s[|s| - 1] == c then |s| - 1
    else LastIndexOf(s[..|s| - 1], c)
  }

  /** `posixpath.splitext(p)[1]`: from the last "." of the final component to the end, provided a
      character other than "." precedes that dot within the component; otherwise "". */
  function Extension(p: string): (e: string)
    ensures e == "" || (e[0] == '.' && EndsWith(p, e) && '/' !in e && '.' !in e[1..])
  {
    var sep := LastIndexOf(p, '/');
    var dot := LastIndexOf(p, '.');
    if dot > sep && exists k :: sep + 1 <= k < dot && p[k] != '.' then
      assert p[dot..][1..] == p[dot + 1..];
      p[dot..]
    else ""
  }

  /** No "/" at or after position `i`. */
  predicate NoSlashFrom(s: string, i: nat) {
    forall j :: i <= j < |s| ==> s[j] != '/'
  }

  /** The final component of `stem` has a character other than "." (the name part `splitext` needs
      before an extension's dot). */
  predicate HasNameChar(stem: string) {
    exists k :: 0 <= k < |stem| && stem[k] != '.' && stem[k] != '/' && NoSlashFrom(stem, k + 1)
  }

  /** A possible extension: a "." followed by characters that are neither "." nor "/". */
  predicate IsExtSuffix(e: string) {
    |e| >= 1 && e[0] == '.' && forall i :: 1 <= i < |e| ==> e[i] != '.' && e[i] != '/'
  }

  /** A name part followed by an extension splits into exactly that extension. */
  lemma ExtensionOfSplit(stem: string, ext: string)
    requires IsExtSuffix(ext) && HasNameChar(stem)
    ensures Extension(stem + ext) == ext
  {
    var p := stem + ext;
    var n := |stem|;
    var k :| 0 <= k < |stem| && stem[k] != '.' && stem[k] != '/' && NoSlashFrom(stem, k + 1);
    assert p[n] == '.';
    assert forall j :: n < j < |p| ==> p[j] == ext[j - n];
    assert forall j :: n < j < |p| ==> p[j] != '.';
    var dot := LastIndexOf(p, '.');
    assert dot == n;
    var sep := LastIndexOf(p, '/');
    assert forall j :: k <= j < n ==> p[j] == stem[j];
    assert forall j :: k <= j < |p| ==> p[j] != '/';
    assert sep < k;
    assert p[k] == stem[k];
    assert p[dot..] == ext;
  }

  /** A non-empty extension is a "." followed by neither "." nor "/", after a name part that has a
      character other than ".". */
  lemma ExtensionShape(p: string)
    requires Extension(p) != ""
    ensures |Extension(p)| <= |p| && p[|p| - |Extension(p)|..] == Extension(p)
    ensures IsExtSuffix(Extension(p)) && HasNameChar(p[..|p| - |Extension(p)|])
  {
    var sep := LastIndexOf(p, '/');
    var dot := LastIndexOf(p, '.');
    var k :| sep + 1 <= k < dot && p[k] != '.';
    var e := p[dot..];
    assert Extension(p) == e;
    var stem := p[..dot];
    assert |p| - |e| == dot;
    assert stem[k] == p[k];
    assert NoSlashFrom(stem, k + 1) by {
      forall j | k + 1 <= j < |stem|
        ensures stem[j] != '/'
      {
        assert stem[j] == p[j];
      }
    }
    assert IsExtSuffix(e) by {
      forall i | 1 <= i < |e|
        ensures e[i] != '.' && e[i] != '/'
      {
        assert e[i] == p[dot + i];
      }
    }
  }

  /** `splitext` finds an extension exactly when the path is a name part followed by an extension,
      and then it is that extension. */
  lemma ExtensionIff(p: string)
    ensures Extension(p) != "" <==> exists n :: 0 <= n <= |p| && IsExtSuffix(p[n..]) && HasNameChar(p[..n])
    ensures forall n :: 0 <= n <= |p| && IsExtSuffix(p[n..]) && HasNameChar(p[..n]) ==> Extension(p) == p[n..]
  {
    if Extension(p) != "" {
      ExtensionShape(p);
      var n := |p| - |Extension(p)|;
      assert IsExtSuffix(p[n..]) && HasNameChar(p[..n]);
    }
    forall n | 0 <= n <= |p| && IsExtSuffix(p[n..]) && HasNameChar(p[..n])
      ensures Extension(p) == p[n..]
    {
      ExtensionOfSplit(p[..n], p[n..]);
      assert p[..n] + p[n..] == p;
    }
  }

  /** Appending characters other than `c` leaves the last index of `c` where it was. */
  lemma {:induction false} LastIndexOfAppend(s: string, t: string, c: char)
    requires c !in t
    ensures LastIndexOf(s + t, c) == LastIndexOf(s, c)
    decreases |t|
  {
    if |t| > 0 {
      var u := s + t;
      assert u[..|u| - 1] == s + t[..|t| - 1];
      assert u[|u| - 1] == t[|t| - 1];
      LastIndexOfAppend(s, t[..|t| - 1], c);
    } else {
      assert s + t == s;
    }
  }

  /** "a.csv" has the extension ".csv". */
  lemma ExtensionCsvExample()
    ensures Extension("a.csv") == ".csv"
  {
    assert "a"[0] != '.' && "a"[0] != '/' && NoSlashFrom("a", 0 + 1);
    assert IsExtSuffix(".csv");
    ExtensionOfSplit("a", ".csv");
    assert "a" + ".csv" == "a.csv";
  }

  /** "a." has the extension ".", as `splitext` gives. */
  lemma ExtensionBareDotExample()
    ensures Extension("a.") == "."
  {
    assert "a"[0] != '.' && "a"[0] != '/' && NoSlashFrom("a", 0 + 1);
    assert IsExtSuffix(".");
    ExtensionOfSplit("a", ".");
    assert "a" + "." == "a.";
  }

  /** ".bashrc" has no extension: no name comes before its dot. */
  lemma ExtensionDotFileExample()
    ensures Extension(".bashrc") == ""
  {
    assert LastIndexOf(".bashrc", '.') == 0 by {
      LastIndexOfAppend(".", "bashrc", '.');
      assert "." + "bashrc" == ".bashrc";
    }
    assert LastIndexOf(".bashrc", '/') == -1 by {
      LastIndexOfAppend("", ".bashrc", '/');
      assert "" + ".bashrc" == ".bashrc";
    }
  }

  /** "d.x/f" has no extension: its only dot is in a directory. */
  lemma ExtensionDirDotExample()
    ensures Extension("d.x/f") == ""
  {
    assert LastIndexOf("d.x/f", '.') == 1 by {
      LastIndexOfAppend("d.", "x/f", '.');
      assert "d." + "x/f" == "d.x/f";
    }
    assert LastIndexOf("d.x/f", '/') == 3 by {
      LastIndexOfAppend("d.x/", "f", '/');
      assert "d.x/" + "f" == "d.x/f";
    }
  }
}
