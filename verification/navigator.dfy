/** The navigator itself: an open archive, the current directory inside it and the iterator fields;
    `cd`, `pwd`, directory inference from member names, and the base directory an iterator starts
    from. */
module ZipNavigator {
  import opened Wrappers
  import opened Errors
  import opened Text
  import opened Paths
  import opened BatchState

  /** The open archive: its absolute path, the member names of its central directory, and the
      uncompressed size of each member. */
  datatype Archive = Archive(path: string, names: seq<string>, sizes: map<string, nat>)

  /** A navigator: the archive, the current directory ("" for the root, otherwise a canonical path)
      and the iterator fields. */
  datatype Navigator = Navigator(zip: Archive, cwd: string, it: IterState)

  /** What every operation keeps true of a navigator. */
  predicate NavValid(nav: Navigator) {
    IsCwd(nav.cwd) && IsRelative(nav.cwd) && Valid(nav.it)
  }

  /** A freshly opened navigator: at the root, no iterator. */
  function Open(zip: Archive): (nav: Navigator)
    ensures NavValid(nav)
    ensures nav.cwd == "" && Pwd(nav.cwd) == "/" && GetStatus(nav.it) == NotActive
  {
    Navigator(zip, "", Inactive)
  }

  /** `_dir_exists_in_zip`: the root always exists; any other path is a directory when some member
      name lies under it (the path without trailing slashes, then a slash, is a prefix of the name). */
  predicate DirExistsInZip(names: seq<string>, rel: string) {
    rel == "" || rel == "/" ||
    exists k :: 0 <= k < |names| && StartsWith(names[k], RStrip(rel, '/') + "/")
  }

  /** The directory `cd` moves to: the resolved path when it is the root or a directory the member
      names imply, stored with exactly one trailing slash. A member file gives `NotADirectoryError`,
      anything else `FileNotFoundError`. The retry with an added slash in the source cannot succeed
      once the prefix test has failed, so it does not appear. */
  function CdDir(names: seq<string>, cwd: string, path: string): Result<string, Error>
    requires IsRelative(cwd)
  {
    var rel :- Resolve(cwd, path);
    if rel == "" then Success("")
    else if DirExistsInZip(names, rel) then Success(RStrip(rel, '/') + "/")
    else if rel in names then Failure(NotADirectory(rel))
    else Failure(FileNotFound(rel))
  }

  /** `cd`: moves to that directory; a failed call leaves the navigator as it was. */
  function Cd(nav: Navigator, path: string): (r: Result<Navigator, Error>)
    requires NavValid(nav)
    ensures r.Success? ==> r.value == nav.(cwd := r.value.cwd)
  {
    var c :- CdDir(nav.zip.names, nav.cwd, path);
    Success(nav.(cwd := c))
  }

  /** A canonical body with one slash appended is a current directory with that body. */
  lemma SlashedBody(b: string)
    requires b != "" && b[|b| - 1] != '/' && !StartsWith(b, "..")
    requires forall k :: 0 <= k < |Split(b, '/')| ==> IsPart(Split(b, '/')[k]) && Split(b, '/')[k] != ".."
    ensures IsCwd(b + "/") && Body(b + "/") == b
  {
    var c := b + "/";
    assert Body(c) == b by {
      assert c[..|c| - 1] == b;
    }
    assert !StartsWith(c, "..") by {
      if |b| >= 2 {
        assert c[..2] == b[..2];
      } else {
        assert c[1] == '/';
      }
    }
  }

  /** Stripping the trailing slashes of a canonical path leaves its body. */
  lemma RStripCanonical(rel: string)
    requires IsCwd(rel) && rel != ""
    ensures RStrip(rel, '/') == Body(rel)
    ensures Body(rel) != "" && Body(rel)[|Body(rel)| - 1] != '/' && !StartsWith(Body(rel), "..")
  {
    PurePartsOfCanonical(rel);
    BodyShape(rel);
    if rel[|rel| - 1] == '/' {
      assert rel[..|rel| - 1] == Body(rel);
    }
  }

  /** A resolved directory stored with one trailing slash is still a valid current directory, and
      resolving the empty path from it gives the directory back. */
  lemma DirAsCwd(rel: string)
    requires IsCwd(rel) && rel != ""
    ensures RStrip(rel, '/') == Body(rel)
    ensures var c := Body(rel) + "/";
            IsCwd(c) && IsRelative(c) && Body(c) == Body(rel) && Resolve(c, "") == Success(Body(rel))
  {
    RStripCanonical(rel);
    SlashedBody(Body(rel));
    ResolveEmptyIsCwd(Body(rel) + "/");
  }

  /** `cd` succeeds exactly when the path resolves to the root or to a directory the member names
      imply. This restates `CdDir`'s tests for callers; what the target is, is stated by `CdTarget`. */
  lemma CdSucceedsIff(nav: Navigator, path: string)
    requires NavValid(nav)
    ensures Cd(nav, path).Success? <==>
      Resolve(nav.cwd, path).Success? &&
      (Resolve(nav.cwd, path).value == "" || DirExistsInZip(nav.zip.names, Resolve(nav.cwd, path).value))
  {
  }

  /** The directory `cd` moves to is a valid current directory: the root for the root, otherwise the
      resolved path with one trailing slash, from which resolving the empty path gives the target
      back. */
  lemma CdTarget(names: seq<string>, cwd: string, path: string)
    requires IsCwd(cwd) && IsRelative(cwd)
    requires CdDir(names, cwd, path).Success?
    ensures var c := CdDir(names, cwd, path).value;
      var rel := Resolve(cwd, path).value;
      && IsCwd(c) && IsRelative(c)
      && (c == "" || EndsWith(c, "/"))
      && Resolve(c, "") == Success(Body(rel))
  {
    var rel := Resolve(cwd, path).value;
    ResolveStaysInRoot(cwd, path);
    if rel == "" {
      assert CdDir(names, cwd, path) == Success("");
      ResolveEmptyIsCwd("");
    } else {
      assert CdDir(names, cwd, path) == Success(RStrip(rel, '/') + "/");
      DirAsCwd(rel);
      var c := Body(rel) + "/";
      assert EndsWith(c, "/") by {
        assert c[|c| - 1..] == "/";
      }
    }
  }

  /** A successful `cd` changes the current directory only, to the target above, and the navigator
      stays valid. */
  lemma CdKeepsValid(nav: Navigator, path: string)
    requires NavValid(nav)
    requires Cd(nav, path).Success?
    ensures NavValid(Cd(nav, path).value)
    ensures Cd(nav, path).value.cwd == CdDir(nav.zip.names, nav.cwd, path).value
  {
    CdTarget(nav.zip.names, nav.cwd, path);
  }

  /** The errors of `cd`: `ValueError` when the path leaves the root, `NotADirectoryError` exactly when
      the target is a member name with nothing under it, `FileNotFoundError` when it is neither a
      directory nor a member. */
  lemma CdErrors(names: seq<string>, cwd: string, path: string)
    requires IsRelative(cwd)
    ensures CdDir(names, cwd, path) == Failure(InvalidPath) <==> Resolve(cwd, path).Failure?
    ensures Resolve(cwd, path).Success? ==>
      var rel := Resolve(cwd, path).value;
      && (CdDir(names, cwd, path) == Failure(NotADirectory(rel)) <==>
          rel != "" && !DirExistsInZip(names, rel) && rel in names)
      && (CdDir(names, cwd, path) == Failure(FileNotFound(rel)) <==>
          rel != "" && !DirExistsInZip(names, rel) && rel !in names)
  {
    if Resolve(cwd, path).Failure? {
      ResolveFailsExactly(cwd, path);
      assert Resolve(cwd, path) == Failure(InvalidPath);
    }
  }

  /** `cd("/")` always goes to the root. */
  lemma CdRoot(names: seq<string>, cwd: string)
    requires IsRelative(cwd)
    ensures CdDir(names, cwd, "/") == Success("")
  {
    ResolveAbsoluteFixpoint(cwd, "");
    assert "/" + "" == "/";
  }

  /** Changing to the directory `pwd` prints lands in the same directory, for any current directory
      that exists: the root stays the root, and any other directory is stored with exactly one
      trailing slash, so a current directory `cd` produced stays put and one without the slash (the
      base `resume` moves to) gains it. */
  lemma CdPwd(names: seq<string>, cwd: string)
    requires IsCwd(cwd) && IsRelative(cwd) && '\\' !in cwd
    requires cwd == "" || DirExistsInZip(names, cwd)
    ensures CdDir(names, cwd, Pwd(cwd)) == Success(if cwd == "" then "" else Body(cwd) + "/")
    ensures Resolve(CdDir(names, cwd, Pwd(cwd)).value, "") == Success(Body(cwd))
    ensures EndsWith(cwd, "/") ==> CdDir(names, cwd, Pwd(cwd)) == Success(cwd)
  {
    PwdRoundTrip(cwd, cwd);
    if cwd == "" {
      assert CdDir(names, cwd, Pwd(cwd)) == Success("");
      ResolveEmptyIsCwd("");
    } else {
      assert CdDir(names, cwd, Pwd(cwd)) == Success(Body(cwd) + "/") by {
        RStripCanonical(cwd);
      }
      DirAsCwd(cwd);
      if EndsWith(cwd, "/") {
        BodySlash(cwd);
      }
    }
  }

  /** A path ending in a slash is its body with the slash put back. */
  lemma BodySlash(c: string)
    requires EndsWith(c, "/")
    ensures c == Body(c) + "/"
  {
    assert c[|c| - 1..][0] == c[|c| - 1];
  }

  /** The base an iterator records: the current directory resolved, which is what resolving the empty
      path yields (the current directory without its trailing slash). */
  function InitBase(cwd: string): (b: string)
    requires IsCwd(cwd) && IsRelative(cwd)
    ensures BaseShape(b)
    ensures Resolve(cwd, "") == Success(b)
  {
    ResolveEmptyIsCwd(cwd);
    ResolveStaysInRoot(cwd, "");
    var b := Resolve(cwd, "").value;
    assert !HadTrailing("");
    assert b != "" ==> b[|b| - 1..][0] == b[|b| - 1];
    b
  }

  /** The base is a fixed point: started from a navigator standing at the base, an iterator records the
      same base again, so a resumed run passes the base check of a later initialisation. */
  lemma InitBaseFixpoint(cwd: string)
    requires IsCwd(cwd) && IsRelative(cwd)
    ensures InitBase(InitBase(cwd)) == InitBase(cwd)
  {
    var b := InitBase(cwd);
    ResolveEmptyIsCwd(b);
    ResolveEmptyIsCwd(cwd);
    if b != "" {
      assert b[|b| - 1..][0] == b[|b| - 1];
    }
  }

  /** A recorded base is its own base: a navigator moved to it records it again. */
  lemma InitBaseOfBase(b: string)
    requires BaseShape(b)
    ensures InitBase(b) == b
  {
    ResolveEmptyIsCwd(b);
  }

  /** The base as the source computes it: the current directory passed to `_resolve` as the path,
      which joins it onto itself. */
  function InitBaseAsWritten(cwd: string): Result<string, Error>
    requires IsRelative(cwd)
  {
    Resolve(cwd, cwd)
  }

  /** The current directory of one component `d`, as `cd("d/")` leaves it, resolved against itself
      doubles: the recorded base is "d/d/" where "d" is meant. */
  lemma InitBaseAsWrittenDoubles(d: string)
    requires IsPart(d) && '\\' !in d && !StartsWith(d, "..")
    ensures IsCwd(d + "/") && IsRelative(d + "/")
    ensures InitBaseAsWritten(d + "/") == Success(d + "/" + d + "/")
    ensures InitBase(d + "/") == d
  {
    var c := d + "/";
    DoubledParts(d);
    ResolveByParts(c, c);
    DoubledRendered(d);
    DirAsCwdOfPart(d);
  }

  /** Joining "d/" onto itself gives the components `d`, `d`, with nothing to collapse, and the path
      had a trailing slash. */
  lemma DoubledParts(d: string)
    requires IsPart(d) && '\\' !in d && !StartsWith(d, "..")
    ensures HadTrailing(d + "/") && Collapse(JoinedParts(d + "/", d + "/")) == [d, d]
  {
    var c := d + "/";
    assert d == ".." ==> StartsWith(d, "..");
    assert Join([d], '/') == d;
    PurePartsOfJoin([d]);
    PurePartsTrailingSlash(d);
    assert Converted(c) == c;
    assert JoinedParts(c, c) == [d, d];
    CollapseNoDotDot([d, d]);
  }

  /** The components `d`, `d` with a trailing slash render as "d/d/". */
  lemma DoubledRendered(d: string)
    requires IsPart(d) && !StartsWith(d, "..")
    ensures Rendered([d, d], true) == Success(d + "/" + d + "/")
  {
    var s := Join([d, d], '/');
    assert s == d + "/" + d by {
      assert [d, d][1..] == [d];
      assert Join([d], '/') == d;
    }
    assert !StartsWith(s, "..") by {
      if |d| >= 2 {
        assert s[..2] == d[..2];
      } else {
        assert s[1] == '/';
      }
    }
    assert !EndsWith(s, "/") by {
      assert s[|s| - 1] == d[|d| - 1];
    }
    assert s + "/" == d + "/" + d + "/";
  }

  /** A single component followed by a slash is a current directory whose body is the component. */
  lemma DirAsCwdOfPart(d: string)
    requires IsPart(d) && !StartsWith(d, "..")
    ensures IsCwd(d + "/") && IsRelative(d + "/") && InitBase(d + "/") == d
  {
    SplitNoSeparator(d, '/');
    assert d == ".." ==> StartsWith(d, "..");
    SlashedBody(d);
    ResolveEmptyIsCwd(d + "/");
  }
}
