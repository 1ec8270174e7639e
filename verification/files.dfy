/** The filesystem the handlers work on, as an immutable map from absolute
    path to entry, and the three operating-system calls they make through
    Go's `os` and `path/filepath` packages: link resolution, open for
    reading, and exclusive create. */
module Files {
  import opened Results
  import opened Paths

  newtype byte = x: int | 0 <= x < 256

  type Bytes = seq<byte>

  /** A directory entry. A `Link` records where resolving the link finally
      leads (the symbolic-link oracle): `target` is the absolute path that
      `filepath.EvalSymlinks` would return for it. */
  datatype Entry = File(data: Bytes) | Directory | Link(target: Path)

  type FileSystem = map<Path, Entry>

  /** The operating-system failures the model distinguishes. */
  datatype FsError = NotFound | Exists | NotDirectory

  /** The entry a path finally names, following a link at the path itself:
      a missing path, a dangling link and a link to another link (a chain
      or a loop) do not resolve. This is the model of both
      `filepath.EvalSymlinks` and the lookup `os.Open` performs. Being an
      oracle for an operating-system call, its contract is its definition
      stated case by case, not a property derived from it. */
  function Follow(fs: FileSystem, p: Path): (r: Result<Path, FsError>)
    ensures r.Ok? <==> p in fs && (fs[p].Link? ==> fs[p].target in fs && !fs[fs[p].target].Link?)
    ensures r.Ok? ==> r.value in fs && !fs[r.value].Link?
    ensures r.Ok? && !fs[p].Link? ==> r.value == p
    ensures r.Ok? && fs[p].Link? ==> r.value == fs[p].target
  {
    if p !in fs then Err(NotFound)
    else match fs[p]
      case Link(t) => if t in fs && !fs[t].Link? then Ok(t) else Err(NotFound)
      case _ => Ok(p)
  }

  /** `os.OpenFile(p, O_WRONLY|O_CREATE|O_EXCL, 0644)`: creates an empty file,
      and fails instead when anything (file, directory or link) already
      exists at `p`, or when the parent directory `filepath.Dir(p)` is
      missing or is not a directory. As for `Follow`, the contract is the
      oracle's definition (which calls fail and which succeed), stated
      case by case. */
  function CreateExclusive(fs: FileSystem, p: Path): (r: Result<FileSystem, FsError>)
    ensures p in fs ==> r == Err(Exists)
    ensures r.Ok? <==> p !in fs && Dir(p) in fs && fs[Dir(p)].Directory?
    ensures r.Ok? ==> r.value == fs[p := File([])]
  {
    if p in fs then Err(Exists)
    else if Dir(p) !in fs then Err(NotFound)
    else if !fs[Dir(p)].Directory? then Err(NotDirectory)
    else Ok(fs[p := File([])])
  }
}
