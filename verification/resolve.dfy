/** The path-confinement gate of server/path.go: an untrusted name from the
    network is joined onto the trusted root, made absolute, optionally
    resolved through symbolic links, and accepted only if the containment
    test admits the result. */
module Resolve {
  import opened Results
  import opened Paths
  import opened Containment
  import opened Files

  /** `AbsFailed` is the wrapped `filepath.Abs` error; `InvalidPath` is the
      opaque sentinel (text "invalid path, or not found") returned both when
      link resolution fails and when the containment test rejects. */
  datatype PathError = AbsFailed | InvalidPath

  /** The containment test. `LiteralPrefix` is the plain `strings.HasPrefix`
      the server performs; `SegmentBoundary` is the corrected test that also
      requires the root to end at a separator inside the path. */
  datatype Gate = LiteralPrefix | SegmentBoundary

  predicate Admits(gate: Gate, root: Path, p: Path) {
    match gate
    case LiteralPrefix => HasPrefix(p, root)
    case SegmentBoundary => IsBeneath(root, p)
  }

  /** `evaluatePath(untrusted, trustedRoot, evalSymlink)`; the filesystem and
      the process working directory are the environment it consults. */
  function EvaluatePath(untrusted: Path, root: Path, evalSymlink: bool, fs: FileSystem,
                        cwd: Option<Path>, gate: Gate): (r: Result<Path, PathError>)
    // whatever is accepted passes the containment test
    ensures r.Ok? ==> Admits(gate, root, r.value)
    // the only non-opaque error is the failure to make the path absolute
    ensures r == Err(AbsFailed) <==> Abs(Join(root, untrusted), cwd).None?
    ensures IsAbs(root) ==> r != Err(AbsFailed)
    // without link resolution, an absolute root gives the cleaned join
    ensures r.Ok? && !evalSymlink && IsAbs(root) ==> r.value == Join(root, untrusted)
    // with link resolution, the result is an existing entry that is not a link
    ensures r.Ok? && evalSymlink ==> r.value in fs && !fs[r.value].Link?
    // a resolution failure is the opaque error
    ensures evalSymlink && IsAbs(root) && Follow(fs, Join(root, untrusted)).Err? ==> r == Err(InvalidPath)
  {
    JoinAbsolute(root, untrusted);
    var joined := Join(root, untrusted);
    match Abs(joined, cwd)
    case None => Err(AbsFailed)
    case Some(abs) =>
      // `filepath.EvalSymlinks` is the link oracle `Follow`
      var evaluated := if evalSymlink then Follow(fs, abs) else Ok(abs);
      if evaluated.Err? then Err(InvalidPath)
      else if !Admits(gate, root, evaluated.value) then Err(InvalidPath)
      else Ok(evaluated.value)
  }

  /** The gate applied to a path whose resolution is already known. */
  lemma EvaluateOntoRoot(untrusted: Path, root: Path, evalSymlink: bool, fs: FileSystem,
                         cwd: Option<Path>, gate: Gate)
    requires IsAbs(root)
    ensures var joined := Join(root, untrusted);
      var evaluated := if evalSymlink then Follow(fs, joined) else Ok(joined);
      EvaluatePath(untrusted, root, evalSymlink, fs, cwd, gate) ==
        if evaluated.Err? || !Admits(gate, root, evaluated.value) then Err(InvalidPath)
        else Ok(evaluated.value)
  {
    JoinAbsolute(root, untrusted);
  }

  // ---------------------------------------------------------------------
  // The requests of server/path_test.go, for any clean absolute root

  /** `""`, `.` and `/` all name the root itself, which is accepted: a name
      that looks absolute is taken relative to the root. */
  lemma {:induction false} RootRequestsResolveToRoot(u: Path, root: Path, evalSymlink: bool,
                                                     fs: FileSystem, cwd: Option<Path>, gate: Gate)
    requires IsRoot(root)
    requires u == "" || u == "." || u == "/"
    requires evalSymlink ==> root in fs && !fs[root].Link?
    ensures EvaluatePath(u, root, evalSymlink, fs, cwd, gate) == Ok(root)
  {
    RootRender(root);
    var s := Components(root);
    JoinOntoRoot(root, u);
    if u == "." {
      SplitName(".");
      assert Walk(s, ["."], true) == s;
    } else if u == "/" {
      SplitSlash();
      assert Walk(s, ["", ""], true) == s;
    } else {
      SplitName("");
      assert Walk(s, [""], true) == s;
    }
    assert Join(root, u) == root;
    EvaluateOntoRoot(u, root, evalSymlink, fs, cwd, gate);
    assert HasPrefix(root, root);
  }

  /** `..` names the root's parent, which the gate rejects (unless link
      resolution finds a link there). */
  lemma {:induction false} ParentRejected(root: Path, evalSymlink: bool, fs: FileSystem,
                                          cwd: Option<Path>, gate: Gate)
    requires IsRoot(root) && root != "/"
    requires evalSymlink && Join(root, "..") in fs ==> !fs[Join(root, "..")].Link?
    ensures var s := Components(root);
      |s| > 0 && Join(root, "..") == Render(true, s[..|s| - 1])
    ensures EvaluatePath("..", root, evalSymlink, fs, cwd, gate) == Err(InvalidPath)
  {
    RootRender(root);
    RootIsSlashIffNoComponents(root);
    var s := Components(root);
    JoinOntoRoot(root, "..");
    SplitName("..");
    assert s[|s| - 1] != "..";
    assert Walk(s, [".."], true) == s[..|s| - 1];
    var parent := Join(root, "..");
    ParentShorter(root);
    assert !HasPrefix(parent, root);
    BeneathImpliesPrefix(root, parent);
    EvaluateOntoRoot("..", root, evalSymlink, fs, cwd, gate);
  }

  /** `../<last component of the root>` climbs out and straight back in, and
      is accepted as the root itself. */
  lemma {:induction false} RedundantRootAccepted(root: Path, evalSymlink: bool, fs: FileSystem,
                                                 cwd: Option<Path>, gate: Gate)
    requires IsRoot(root) && root != "/"
    requires evalSymlink ==> root in fs && !fs[root].Link?
    ensures |Components(root)| > 0
    ensures EvaluatePath("../" + LastComponent(root), root, evalSymlink, fs, cwd, gate) == Ok(root)
  {
    RootRender(root);
    RootIsSlashIffNoComponents(root);
    var s := Components(root);
    var b := LastComponent(root);
    var u := "../" + b;
    SplitParentName(b);
    JoinOntoRoot(root, u);
    ClimbAndReturn(s);
    assert Join(root, u) == root;
    EvaluateOntoRoot(u, root, evalSymlink, fs, cwd, gate);
    assert HasPrefix(root, root);
  }

  lemma SplitParentName(b: string)
    requires Sep !in b
    ensures Split("../" + b) == ["..", b]
  {
    assert "../" + b == ".." + [Sep] + b;
    SplitConcat("..", b);
    SplitName("..");
    SplitName(b);
  }

  /** Climbing out of the last name of a rooted stack and naming it again
      returns to the same stack. */
  lemma ClimbAndReturn(s: seq<string>)
    requires |s| > 0 && IsName(s[|s| - 1])
    ensures Walk(s, ["..", s[|s| - 1]], true) == s
  {
    var b := s[|s| - 1];
    assert Push(s, "..", true) == s[..|s| - 1];
    assert ["..", b][1..] == [b];
    assert Walk(s, ["..", b], true) == Walk(s[..|s| - 1], [b], true);
    assert [b][1..] == [];
    assert s[..|s| - 1] + [b] == s;
  }

  /** A name inside the root that is a symbolic link resolves to the link's
      target, and is accepted exactly when the target exists as a non-link
      entry that passes the containment test: a link to `/etc/passwd` from a
      root that is not a prefix of it is rejected. */
  lemma LinkInsideRoot(name: string, root: Path, fs: FileSystem, cwd: Option<Path>, gate: Gate)
    requires IsRoot(root) && IsName(name) && Sep !in name
    requires Child(root, name) in fs && fs[Child(root, name)].Link?
    ensures var t := fs[Child(root, name)].target;
      EvaluatePath(name, root, true, fs, cwd, gate) ==
        if t in fs && !fs[t].Link? && Admits(gate, root, t) then Ok(t) else Err(InvalidPath)
  {
    JoinName(root, name);
    EvaluateOntoRoot(name, root, true, fs, cwd, gate);
  }

  // ---------------------------------------------------------------------
  // What the gate guarantees

  /** Without link resolution, a request with no `..` element is always
      accepted, by either test, and resolves to the root's components
      followed by the request's own names. */
  lemma DescendingRequestAccepted(u: Path, root: Path, fs: FileSystem, cwd: Option<Path>, gate: Gate)
    requires IsRoot(root)
    requires forall k :: 0 <= k < |Split(u)| ==> Split(u)[k] != ".."
    ensures EvaluatePath(u, root, false, fs, cwd, gate) == Ok(Join(root, u))
    ensures Components(root) <= Components(Join(root, u))
  {
    var s := Components(root);
    RootRender(root);
    JoinOntoRoot(root, u);
    WalkDescends(s, Split(u));
    var w := Walk(s, Split(u), true);
    WalkCanonical(s, Split(u), true);
    ComponentsRender(true, w);
    JoinOntoRootIsClean(root, u);
    BeneathIffComponentPrefix(root, Join(root, u));
    BeneathImpliesPrefix(root, Join(root, u));
    EvaluateOntoRoot(u, root, false, fs, cwd, gate);
  }

  /** Every link in the filesystem resolves to a clean absolute path, as
      `filepath.EvalSymlinks` guarantees of its results. */
  predicate LinkTargetsClean(fs: FileSystem) {
    forall q :: q in fs && fs[q].Link? ==> IsRoot(fs[q].target)
  }

  /** The corrected gate confines: whatever it accepts names the root itself
      or an entry below it, component by component. */
  lemma BoundaryGateConfines(untrusted: Path, root: Path, evalSymlink: bool, fs: FileSystem,
                             cwd: Option<Path>)
    requires IsRoot(root) && LinkTargetsClean(fs)
    requires EvaluatePath(untrusted, root, evalSymlink, fs, cwd, SegmentBoundary).Ok?
    ensures var p := EvaluatePath(untrusted, root, evalSymlink, fs, cwd, SegmentBoundary).value;
      IsRoot(p) && Components(root) <= Components(p)
  {
    var joined := Join(root, untrusted);
    var p := EvaluatePath(untrusted, root, evalSymlink, fs, cwd, SegmentBoundary).value;
    EvaluateOntoRoot(untrusted, root, evalSymlink, fs, cwd, SegmentBoundary);
    JoinOntoRootIsClean(root, untrusted);
    assert IsRoot(p);
    BeneathIffComponentPrefix(root, p);
  }

  /** The literal test lets through exactly one kind of path the corrected
      test refuses: one whose component at the root's depth is a longer name
      that begins with the root's last name, i.e. a sibling of the root such
      as `/srv/tftp-secret` beside `/srv/tftp`. */
  lemma LiteralGateEscapesOnlyToSiblings(untrusted: Path, root: Path, evalSymlink: bool,
                                         fs: FileSystem, cwd: Option<Path>)
    requires IsRoot(root) && root != "/" && LinkTargetsClean(fs)
    requires EvaluatePath(untrusted, root, evalSymlink, fs, cwd, LiteralPrefix).Ok?
    ensures var p := EvaluatePath(untrusted, root, evalSymlink, fs, cwd, LiteralPrefix).value;
      var s := Components(root);
      var t := Components(p);
      var n := |s|;
      IsRoot(p) && 0 < n <= |t| &&
      (IsBeneath(root, p) || (s[..n - 1] == t[..n - 1] && |s[n - 1]| < |t[n - 1]| &&
                              HasPrefix(t[n - 1], s[n - 1])))
  {
    var p := EvaluatePath(untrusted, root, evalSymlink, fs, cwd, LiteralPrefix).value;
    EvaluateOntoRoot(untrusted, root, evalSymlink, fs, cwd, LiteralPrefix);
    JoinOntoRootIsClean(root, untrusted);
    assert IsRoot(p);
    PrefixWithoutBoundaryIsSibling(root, p);
  }

  /** With the root left at Go's zero value "" (SetRoot never called), the
      literal test admits every path: nothing is confined, and relative names
      resolve against the working directory. */
  lemma UnsetRootConfinesNothing(untrusted: Path, fs: FileSystem, wd: Path)
    ensures EvaluatePath(untrusted, "", false, fs, Some(wd), LiteralPrefix).Ok?
  {
    assert forall p: Path :: HasPrefix(p, "");
  }
}
