/** The download and upload handlers of server/server.go, as pure transitions
    over the model filesystem. The trusted root is read from the server
    value; byte streams are the bytes offered plus the point at which the
    peer's side of the transfer fails, if it does. */
module Server {
  import opened Results
  import opened Paths
  import opened Containment
  import opened Files
  import opened Resolve

  /** Process-wide state the handlers read: the trusted root (Go's package
      variable `root`, "" until SetRoot is called), the working directory
      `filepath.Abs` falls back on, and the containment test in force
      (`LiteralPrefix` is the server as written). */
  datatype Server = Server(root: Path, cwd: Option<Path>, gate: Gate)

  /** `SetRoot(p)`: the only writer of the root. */
  function SetRoot(s: Server, p: Path): (s': Server)
    ensures s'.root == p
    ensures s'.cwd == s.cwd && s'.gate == s.gate
  {
    s.(root := p)
  }

  /** Where the peer's side of a transfer fails: never, or after `count`
      bytes have gone across. */
  datatype Fault = Never | After(count: nat)

  /** Whether a transfer of `data` runs to the end without hitting the fault. */
  predicate Completes(data: Bytes, fault: Fault) {
    !(fault.After? && fault.count <= |data|)
  }

  /** The bytes of `data` that cross before the fault. */
  function Delivered(data: Bytes, fault: Fault): (d: Bytes)
    ensures d <= data
    ensures Completes(data, fault) <==> d == data && !(fault.After? && fault.count == |data|)
    ensures !Completes(data, fault) ==> |d| == fault.count
  {
    if Completes(data, fault) then data else data[..fault.count]
  }

  /** A file handle event. */
  datatype HandleOp = Opened(path: Path) | Created(path: Path) | Closed(path: Path)

  /** The handle discipline of both handlers (Go's `defer file.Close()`): at
      most one handle is acquired, and when one is, closing it is the last
      thing that happens. */
  predicate ClosesWhatItOpens(ops: seq<HandleOp>) {
    ops == [] || (|ops| == 2 && !ops[0].Closed? && ops[1] == Closed(ops[0].path))
  }

  /** Why a handler failed. */
  datatype HandlerError =
    | Rejected(cause: PathError)
    | OpenFailed(reason: FsError)
    | CreateFailed(reason: FsError)
    | TransferFailed

  /** What a download did: its outcome (on success the byte count the
      handler logs), the bytes the network sink received, and the handle
      events. */
  datatype ReadReply = ReadReply(result: Result<nat, HandlerError>, sent: Bytes, handles: seq<HandleOp>)

  /** What an upload did: its outcome, the filesystem afterwards, and the
      handle events. */
  datatype WriteReply = WriteReply(result: Result<nat, HandlerError>, fs: FileSystem, handles: seq<HandleOp>)

  /** The bytes an uploading peer offers, and where its transfer fails. */
  datatype Upload = Upload(body: Bytes, fault: Fault)

  /** `ReadHandler(requestedPath, rf)`: resolve with link evaluation, open,
      stream the file to the sink, close. */
  function ReadHandler(s: Server, name: Path, fs: FileSystem, sink: Fault): (r: ReadReply)
    ensures var e := EvaluatePath(name, s.root, true, fs, s.cwd, s.gate);
      // a rejected name is returned as is, before any I/O
      && (e.Err? ==> r == ReadReply(Err(Rejected(e.error)), [], []))
      // success delivers exactly the resolved file's bytes, and counts them
      && (r.result.Ok? ==> e.Ok? && fs[e.value] == File(r.sent) && r.result.value == |r.sent|)
      // nothing but a leading part of the resolved file ever reaches the sink
      && (e.Ok? && fs[e.value].File? ==> r.sent <= fs[e.value].data)
      && (!(e.Ok? && fs[e.value].File?) ==> r.sent == [])
      // a sink that does not fail before the end receives the whole file
      && (e.Ok? && fs[e.value].File? && Completes(fs[e.value].data, sink) ==>
            r.result == Ok(|fs[e.value].data|) && r.sent == fs[e.value].data)
      // a sink that fails part-way is an error, and receives exactly the
      // bytes before the failure point
      && (e.Ok? && fs[e.value].File? && !Completes(fs[e.value].data, sink) ==>
            r.result == Err(TransferFailed) && |r.sent| == sink.count)
      // a resolved directory cannot be read from
      && (e.Ok? && fs[e.value].Directory? ==> r.result == Err(TransferFailed))
      // the one handle is on the resolved path and is closed on every exit
      && ClosesWhatItOpens(r.handles)
      && (r.handles != [] <==> e.Ok?)
      && (e.Ok? ==> r.handles[0] == Opened(e.value))
  {
    match EvaluatePath(name, s.root, true, fs, s.cwd, s.gate)
    case Err(e) => ReadReply(Err(Rejected(e)), [], [])
    case Ok(p) =>
      // `os.Open` follows a link at the path, as link resolution does
      match Follow(fs, p)
      case Err(e) => ReadReply(Err(OpenFailed(e)), [], [])
      case Ok(q) =>
        var handles := [Opened(p), Closed(p)];
        match fs[q]
        case File(data) =>
          var sent := Delivered(data, sink);
          ReadReply(if Completes(data, sink) then Ok(|sent|) else Err(TransferFailed), sent, handles)
        case _ =>
          // reading from a directory fails on the first read
          ReadReply(Err(TransferFailed), [], handles)
  }

  /** `WriteHandler(requestedPath, wt)`: resolve without link evaluation,
      create the file exclusively, stream the upload into it, close. A
      transfer that fails part-way leaves the partial file in place. */
  function WriteHandler(s: Server, name: Path, fs: FileSystem, source: Upload): (r: WriteReply)
    ensures var e := EvaluatePath(name, s.root, false, fs, s.cwd, s.gate);
      // a rejected name is returned as is, and the filesystem is untouched
      && (e.Err? ==> r == WriteReply(Err(Rejected(e.error)), fs, []))
      // never overwrites: an existing entry at the resolved path is an error
      // and the filesystem is untouched
      && (e.Ok? && e.value in fs ==> r == WriteReply(Err(CreateFailed(Exists)), fs, []))
      // success leaves a new file holding exactly the upload, and changes
      // nothing else
      && (r.result.Ok? ==>
            e.Ok? && e.value !in fs && r.fs == fs[e.value := File(source.body)] &&
            r.result.value == |source.body|)
      // a failed transfer leaves the part that arrived, and nothing else
      && (r.result == Err(TransferFailed) ==>
            e.Ok? && e.value !in fs && source.fault.After? && source.fault.count <= |source.body| &&
            r.fs == fs[e.value := File(source.body[..source.fault.count])])
      // any change is a new file at the resolved path
      && (r.fs != fs ==> e.Ok? && e.value !in fs && r.fs.Keys == fs.Keys + {e.value} &&
                         r.fs[e.value].File? && r.fs[e.value].data <= source.body)
      // a failed create (the name is taken, or its parent is missing or is
      // not a directory) writes nothing and holds no handle
      && (r.result.Err? && r.result.error.CreateFailed? ==> r.fs == fs && r.handles == [])
      && (e.Ok? && e.value !in fs && !(Dir(e.value) in fs && fs[Dir(e.value)].Directory?) ==>
            r.result.Err? && r.result.error.CreateFailed? && r.result.error.reason != Exists)
      // an upload whose peer fails is never reported as stored
      && (!Completes(source.body, source.fault) ==> !r.result.Ok?)
      // a fresh name in an existing directory is created, its one handle
      // closed, and the bytes that arrive stored; the outcome is success
      // exactly when the peer's transfer completes
      && ((e.Ok? && e.value !in fs && Dir(e.value) in fs && fs[Dir(e.value)].Directory?) ==>
            r.handles == [Created(e.value), Closed(e.value)] &&
            r.fs == fs[e.value := File(Delivered(source.body, source.fault))] &&
            (Completes(source.body, source.fault) <==> r.result == Ok(|source.body|)) &&
            (!Completes(source.body, source.fault) <==> r.result == Err(TransferFailed)))
      // a fresh name in an existing directory, with a peer that does not
      // fail, is stored
      && ((e.Ok? && e.value !in fs && Dir(e.value) in fs && fs[Dir(e.value)].Directory? &&
           source.fault.Never?) ==> r.result == Ok(|source.body|))
      // the one handle is on the resolved path and is closed on every exit
      && ClosesWhatItOpens(r.handles)
      && (r.handles != [] ==> e.Ok? && r.handles[0] == Created(e.value))
  {
    match EvaluatePath(name, s.root, false, fs, s.cwd, s.gate)
    case Err(e) => WriteReply(Err(Rejected(e)), fs, [])
    case Ok(p) => Store(fs, p, source)
  }

  /** The part of `WriteHandler` after resolution: create `p` exclusively,
      stream the upload into it, close it. */
  function Store(fs: FileSystem, p: Path, source: Upload): (r: WriteReply)
    // an existing entry is never overwritten
    ensures p in fs ==> r == WriteReply(Err(CreateFailed(Exists)), fs, [])
    // a missing parent, or one that is not a directory, is a create error
    ensures p !in fs && !(Dir(p) in fs && fs[Dir(p)].Directory?) ==>
      r.result.Err? && r.result.error.CreateFailed? && r.result.error.reason != Exists
    // a failed create writes nothing and holds no handle
    ensures r.result.Err? && r.result.error.CreateFailed? ==> r.fs == fs && r.handles == []
    // otherwise the file is created and closed, holds what arrived, and the
    // outcome is success exactly when the peer's transfer completes
    ensures p !in fs && Dir(p) in fs && fs[Dir(p)].Directory? ==>
      r.handles == [Created(p), Closed(p)] &&
      r.fs == fs[p := File(Delivered(source.body, source.fault))] &&
      (Completes(source.body, source.fault) <==> r.result == Ok(|source.body|)) &&
      (!Completes(source.body, source.fault) <==> r.result == Err(TransferFailed))
  {
    match CreateExclusive(fs, p)
    case Err(e) => WriteReply(Err(CreateFailed(e)), fs, [])
    case Ok(created) =>
      var written := Delivered(source.body, source.fault);
      WriteReply(if Completes(source.body, source.fault) then Ok(|written|) else Err(TransferFailed),
                 created[p := File(written)], [Created(p), Closed(p)])
  }

  // ---------------------------------------------------------------------
  // Properties across calls

  /** Handlers only read the root: whatever root SetRoot installed bounds
      every path they open or create, under the test in force. */
  lemma SetRootBoundsHandlers(s: Server, p: Path, name: Path, fs: FileSystem, sink: Fault, source: Upload)
    ensures var r := ReadHandler(SetRoot(s, p), name, fs, sink);
      forall i :: 0 <= i < |r.handles| ==> Admits(s.gate, p, r.handles[i].path)
    ensures var w := WriteHandler(SetRoot(s, p), name, fs, source);
      (forall i :: 0 <= i < |w.handles| ==> Admits(s.gate, p, w.handles[i].path)) &&
      (forall q :: q in w.fs && (q !in fs || w.fs[q] != fs[q]) ==> Admits(s.gate, p, q))
  {
  }

  /** A second upload to a name the first upload created is refused as
      already existing, and leaves the first file as it is. */
  lemma SecondUploadRefused(s: Server, name: Path, fs: FileSystem, first: Upload, second: Upload)
    requires WriteHandler(s, name, fs, first).handles != []
    ensures var fs1 := WriteHandler(s, name, fs, first).fs;
      WriteHandler(s, name, fs1, second) == WriteReply(Err(CreateFailed(Exists)), fs1, [])
  {
  }

  /** An upload that succeeds can be downloaded again under the same name,
      byte for byte. */
  lemma WriteThenRead(s: Server, name: Path, fs: FileSystem, body: Bytes)
    requires WriteHandler(s, name, fs, Upload(body, Never)).result.Ok?
    ensures var fs1 := WriteHandler(s, name, fs, Upload(body, Never)).fs;
      var r := ReadHandler(s, name, fs1, Never);
      r.result == Ok(|body|) && r.sent == body
  {
    var p := EvaluatePath(name, s.root, false, fs, s.cwd, s.gate).value;
    var fs1 := WriteHandler(s, name, fs, Upload(body, Never)).fs;
    assert fs1[p] == File(body);
    assert EvaluatePath(name, s.root, true, fs1, s.cwd, s.gate) == Ok(p);
  }
}
