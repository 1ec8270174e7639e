/** Concrete requests: the sibling-directory escape that the plain string
    prefix test lets through, shown at the gate and at both handlers, and
    refused by the boundary-aware test. */
module Scenarios {
  import opened Results
  import opened Paths
  import opened Containment
  import opened Files
  import opened Resolve
  import opened Server

  const TftpRoot: Path := "/srv/tftp"
  const SiblingRequest: Path := "../tftp-secret/x"
  const SiblingFile: Path := "/srv/tftp-secret/x"

  lemma TftpRootIsRoot()
    ensures IsRoot(TftpRoot)
    ensures Components(TftpRoot) == ["srv", "tftp"]
  {
    var s := ["srv", "tftp"];
    assert Canonical(s, true);
    assert Render(true, s) == TftpRoot;
    RenderIsClean(true, s);
    ComponentsRender(true, s);
  }

  /** `../tftp-secret/x` under `/srv/tftp` cleans to `/srv/tftp-secret/x`. */
  lemma SiblingJoin()
    ensures Join(TftpRoot, SiblingRequest) == SiblingFile
  {
    SiblingSplit();
    SiblingWalk();
    TftpRootIsRoot();
    JoinOntoRoot(TftpRoot, SiblingRequest);
  }

  lemma SiblingSplit()
    ensures Split(SiblingRequest) == ["..", "tftp-secret", "x"]
  {
    assert Unsplit(["..", "tftp-secret", "x"]) == SiblingRequest;
    SplitUnsplit(["..", "tftp-secret", "x"]);
  }

  lemma SiblingWalk()
    ensures Render(true, Walk(["srv", "tftp"], ["..", "tftp-secret", "x"], true)) == SiblingFile
  {
    assert Push(["srv", "tftp"], "..", true) == ["srv"];
    assert Push(["srv"], "tftp-secret", true) == ["srv", "tftp-secret"];
    assert Push(["srv", "tftp-secret"], "x", true) == ["srv", "tftp-secret", "x"];
    WalkSteps(["srv", "tftp"], "..", "tftp-secret", "x", true);
    assert Render(true, ["srv", "tftp-secret", "x"]) == SiblingFile;
  }

  /** Walking three segments is pushing them in turn. */
  lemma WalkSteps(stack: seq<string>, a: string, b: string, c: string, rooted: bool)
    ensures Walk(stack, [a, b, c], rooted) == Push(Push(Push(stack, a, rooted), b, rooted), c, rooted)
  {
    var s1 := Push(stack, a, rooted);
    var s2 := Push(s1, b, rooted);
    assert [a, b, c][1..] == [b, c];
    assert Walk(stack, [a, b, c], rooted) == Walk(s1, [b, c], rooted);
    assert [b, c][1..] == [c];
    assert Walk(s1, [b, c], rooted) == Walk(s2, [c], rooted);
    assert [c][1..] == [];
    assert Walk(s2, [c], rooted) == Push(s2, c, rooted);
  }

  /** The gate as written accepts the sibling file; the corrected gate
      refuses it. */
  lemma SiblingPrefixAccepted(fs: FileSystem, cwd: Option<Path>)
    ensures HasPrefix(SiblingFile, TftpRoot) && !IsBeneath(TftpRoot, SiblingFile)
    ensures EvaluatePath(SiblingRequest, TftpRoot, false, fs, cwd, LiteralPrefix) == Ok(SiblingFile)
    ensures EvaluatePath(SiblingRequest, TftpRoot, false, fs, cwd, SegmentBoundary) == Err(InvalidPath)
  {
    TftpRootIsRoot();
    SiblingJoin();
    SiblingNotBeneath();
    EvaluateOntoRoot(SiblingRequest, TftpRoot, false, fs, cwd, LiteralPrefix);
    EvaluateOntoRoot(SiblingRequest, TftpRoot, false, fs, cwd, SegmentBoundary);
  }

  /** With link evaluation on, the sibling file (a plain file) resolves to
      itself, so the gate decides as without it. */
  lemma SiblingResolvedForRead(secret: Bytes, cwd: Option<Path>, gate: Gate)
    ensures var fs := map[SiblingFile := File(secret)];
      EvaluatePath(SiblingRequest, TftpRoot, true, fs, cwd, gate) ==
        EvaluatePath(SiblingRequest, TftpRoot, false, fs, cwd, gate)
  {
    var fs := map[SiblingFile := File(secret)];
    TftpRootIsRoot();
    SiblingJoin();
    assert Follow(fs, SiblingFile) == Ok(SiblingFile);
    EvaluateOntoRoot(SiblingRequest, TftpRoot, true, fs, cwd, gate);
    EvaluateOntoRoot(SiblingRequest, TftpRoot, false, fs, cwd, gate);
  }

  /** As written, a download of the sibling name hands out the contents of a
      file outside the root; with the corrected test nothing is sent. */
  lemma SiblingDownloadLeaks(secret: Bytes, cwd: Option<Path>)
    ensures var fs := map[SiblingFile := File(secret)];
      var leaked := ReadHandler(Server(TftpRoot, cwd, LiteralPrefix), SiblingRequest, fs, Never);
      var refused := ReadHandler(Server(TftpRoot, cwd, SegmentBoundary), SiblingRequest, fs, Never);
      leaked.result == Ok(|secret|) && leaked.sent == secret &&
      refused.result == Err(Rejected(InvalidPath)) && refused.sent == []
  {
    var fs := map[SiblingFile := File(secret)];
    SiblingPrefixAccepted(fs, cwd);
    SiblingResolvedForRead(secret, cwd, LiteralPrefix);
    SiblingResolvedForRead(secret, cwd, SegmentBoundary);
  }

  /** As written, an upload of the sibling name creates a file outside the
      root; with the corrected test the filesystem is untouched. */
  lemma SiblingUploadEscapes(body: Bytes, cwd: Option<Path>)
    ensures var fs := map["/srv/tftp-secret" := Directory];
      var escaped := WriteHandler(Server(TftpRoot, cwd, LiteralPrefix), SiblingRequest, fs, Upload(body, Never));
      var refused := WriteHandler(Server(TftpRoot, cwd, SegmentBoundary), SiblingRequest, fs, Upload(body, Never));
      escaped.result == Ok(|body|) && escaped.fs == fs[SiblingFile := File(body)] &&
      refused.result == Err(Rejected(InvalidPath)) && refused.fs == fs
  {
    var fs := map["/srv/tftp-secret" := Directory];
    SiblingPrefixAccepted(fs, cwd);
    SiblingDir();
  }

  lemma SiblingDir()
    ensures Dir(SiblingFile) == "/srv/tftp-secret"
  {
    SecretDirIsRoot();
    SiblingIsChild();
    DirOfChild("/srv/tftp-secret", "x");
  }

  lemma SecretDirIsRoot()
    ensures IsRoot("/srv/tftp-secret")
  {
    assert Canonical(["srv", "tftp-secret"], true);
    assert Render(true, ["srv", "tftp-secret"]) == "/srv/tftp-secret";
    RenderIsClean(true, ["srv", "tftp-secret"]);
  }

  lemma SiblingIsChild()
    ensures Child("/srv/tftp-secret", "x") == SiblingFile
    ensures IsName("x") && Sep !in "x"
  {
  }

  lemma SiblingNotBeneath()
    ensures HasPrefix(SiblingFile, TftpRoot) && !IsBeneath(TftpRoot, SiblingFile)
  {
    assert SiblingFile[..|TftpRoot|] == TftpRoot;
    assert SiblingFile[|TftpRoot|] == '-';
    assert (TftpRoot + [Sep])[|TftpRoot|] == Sep;
  }
}
