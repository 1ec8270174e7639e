# tftp-now path confinement and request handlers, in Dafny

tftp-now is a small TFTP client and server. Its server serves one directory,
the trusted root, fixed at start-up by `SetRoot`. Every read (download) and
write (upload) request names a file. `evaluatePath` turns that untrusted
name into a filesystem path and decides whether it may be served:

1. it joins the name onto the root with Go's `filepath.Join`, which also cleans it;
2. it makes the result absolute with `filepath.Abs`;
3. for reads only, it resolves symbolic links with `filepath.EvalSymlinks`;
4. it accepts the result only when the root is a plain string prefix of it.

`ReadHandler` then opens the file and streams it to the peer. `WriteHandler`
creates the file exclusively and streams the upload into it. Both close
their one handle on every exit.

This project models that core as pure functions.

- `results.dfy` (`Results`): `Option` and `Result`.
- `paths.dfy` (`Paths`): the POSIX part of Go's `path/filepath` the gate uses.
  - `Clean` works on '/'-separated segments: `.` is dropped, `name/..` cancels, and `..` at the top of a rooted path is dropped.
  - Also here: `Join`, `Abs` (the working directory is a parameter), `Dir`, and `strings.HasPrefix`.
- `containment.dfy` (`Containment`): the string-prefix test and the segment-boundary test `IsBeneath`, both characterised through path components.
- `files.dfy` (`Files`): the filesystem as an immutable map from absolute path to `File(bytes)`, `Directory` or `Link(target)`.
  - `Follow` resolves a link at the path itself (the symbolic-link oracle).
  - `CreateExclusive` is `O_CREATE|O_EXCL`.
- `resolve.dfy` (`Resolve`): `evaluatePath`, and the request cases of its test file stated for every clean absolute root.
- `server.dfy` (`Server`): the server state (root, working directory, containment test in force), `SetRoot`, and the two handlers.
  - The handlers are pure transitions returning the outcome, the bytes sent or the new filesystem, and the trace of handle events.
  - A transfer is the bytes offered plus the point where the peer's side fails, if it does.
- `scenarios.dfy` (`Scenarios`): the concrete root `/srv/tftp` and the sibling request `../tftp-secret/x`, at the gate and at both handlers.

The containment test is a parameter, `Gate`.
- `LiteralPrefix` is the server as written.
- `SegmentBoundary` is the correction described under Findings.
- Every handler property holds for both.

## Model

| member | source | states |
|---|---|---|
| Paths.CleanIsClean | server/path.go:13 | the cleaned path is rooted exactly when its input is and has no `.` element and no repeated or trailing '/'; a rooted one has no `..` element, a relative one has `..` only as a leading run |
| Paths.CleanFixpoint | server/path.go:13 | the clean paths are exactly the fixed points of cleaning (both directions) |
| Paths.CleanIdempotent | server/path.go:13 | cleaning twice gives the same path as cleaning once |
| Paths.Join | server/path.go:13 | the join is empty only when both parts are empty, and any other join is clean |
| Paths.Abs | server/path.go:14-17 | an absolute path never fails and keeps its components, and a clean absolute path is returned unchanged; a relative path fails exactly when the working directory is unknown |
| Paths.JoinOntoRoot | server/path.go:13 | joining a request onto a clean absolute root folds the request's segments onto the root's components |
| Paths.JoinOntoRootIsClean | server/path.go:13 | whatever the request, its join onto the root is a clean absolute path |
| Paths.RootedNeverClimbs | server/path.go:13 | leading `..` cannot climb above `/`: a cleaned rooted path holds no `..` element |
| Paths.DirOfChild | server/server.go:70 | the parent directory the exclusive create needs, for a name directly inside a directory, is that directory |
| Containment.BeneathIffComponentPrefix | server/path.go:28 | for clean absolute paths, the segment-boundary test holds exactly when the root's components are a prefix of the path's components |
| Containment.LiteralPrefixCharacterised | server/path.go:28 | for clean absolute paths, the string-prefix test holds exactly when the components agree up to the root's last, which need only be a prefix of the path's component at that depth |
| Containment.BeneathImpliesPrefix | server/path.go:28 | the boundary-aware test only ever rejects more than the string-prefix test |
| Containment.PrefixWithoutBoundaryIsSibling | server/path.go:28 | a path that passes the string-prefix test but not the boundary test lies in a sibling whose name extends the root's last name |
| Files.Follow | server/path.go:22 | link resolution succeeds exactly when the path exists and any link there leads to an existing non-link; the result is that entry |
| Files.CreateExclusive | server/server.go:70 | exclusive create fails on any existing entry, succeeds exactly when the name is free and its parent is a directory, and then adds only an empty file |
| Resolve.EvaluatePath | server/path.go:12-34 | an accepted path passes the containment test; the wrapped error occurs exactly when `Abs` fails, never for an absolute root; under an absolute root and without link resolution the result is the cleaned join; with link resolution, an existing non-link, and a resolution failure is the opaque error |
| Resolve.EvaluateOntoRoot | server/path.go:19-33 | under an absolute root, the outcome is acceptance of the (resolved) join when it resolves and passes the test, and the opaque error otherwise |
| Resolve.RootRequestsResolveToRoot | server/path_test.go:36-40 | `""`, `.` and `/` resolve to the root itself and are accepted; `/` is taken relative to the root |
| Resolve.ParentRejected | server/path_test.go:41-45 | `..` resolves to the root's parent and is rejected with the opaque error |
| Resolve.RedundantRootAccepted | server/path_test.go:46-50 | `../<last name of the root>` resolves to the root and is accepted |
| Resolve.LinkInsideRoot | server/path_test.go:56-60 | a link inside the root is accepted exactly when its target exists as a non-link and passes the test, so a link to `/etc/passwd` is rejected |
| Resolve.DescendingRequestAccepted | server/path.go:13-33 | without link resolution, a request with no `..` is always accepted, under the root's components |
| Resolve.BoundaryGateConfines | server/path.go:28-33 | under the corrected test, every accepted path is the root or lies below it component-wise |
| Resolve.LiteralGateEscapesOnlyToSiblings | server/path.go:28-33 | under the test as written, an accepted path is below the root or in a sibling whose name extends the root's last name |
| Resolve.UnsetRootConfinesNothing | server/path.go:28 | while the root is still "", the string-prefix test accepts every request |
| Server.SetRoot | server/server.go:12-16 | setting the root changes only the root |
| Server.Delivered | server/server.go:43 | the bytes that cross are a prefix of the data: all of it when the peer does not fail, otherwise exactly the bytes before the failure point |
| Server.ReadHandler | server/server.go:19-50 | resolves with link evaluation; a rejection is returned before any I/O; a transfer that completes sends exactly the resolved file's bytes and reports success with their count; a sink that fails part-way is an error and receives exactly the bytes before the failure; reading a directory is an error; only a prefix of that file is ever sent; the one handle is on the resolved path and is closed on every exit |
| Server.WriteHandler | server/server.go:53-84 | resolves without link evaluation; a rejection or an existing entry leaves the filesystem unchanged; a create failure (name taken, parent missing or not a directory) writes nothing and is reported as such; success adds a new file holding exactly the upload and changes nothing else; a fresh name in a directory is created with its one handle closed and holds the bytes that arrived, and the outcome is success exactly when the peer's transfer completes, otherwise a transfer error leaving that prefix |
| Server.Store | server/server.go:70-83 | for a resolved path: an existing entry is never overwritten; a missing or non-directory parent is a create error; a failed create writes nothing and holds no handle; otherwise the file is created and closed, holds the bytes that arrived, and the outcome is success exactly when the transfer completes |
| Server.SetRootBoundsHandlers | server/server.go:12-16 | every path either handler opens, creates or changes passes the containment test against the root `SetRoot` installed |
| Server.SecondUploadRefused | server/server.go:70-74 | an upload to a name a previous upload created is refused and leaves the first file as it was |
| Server.WriteThenRead | integration_test.go:75-101 | a body uploaded under a name downloads again under that name byte for byte |
| Scenarios.SiblingJoin | server/path.go:13 | `../tftp-secret/x` under `/srv/tftp` cleans to `/srv/tftp-secret/x` |
| Scenarios.SiblingPrefixAccepted | server/path.go:28 | the test as written accepts `/srv/tftp-secret/x` for root `/srv/tftp`; the corrected test rejects it |
| Scenarios.SiblingDownloadLeaks | server/server.go:23-49 | as written, downloading the sibling name sends the sibling file's bytes; corrected, nothing is sent |
| Scenarios.SiblingUploadEscapes | server/server.go:57-83 | as written, uploading the sibling name creates a file outside the root; corrected, the filesystem is unchanged |

## Left out

- The command-line front end and the TFTP protocol engine are not modelled. That is flag parsing, the client, block-size negotiation and UDP transfer, which a third-party TFTP library performs.
- Logging and request IDs are not modelled. They are observability only.
- The structured `InvalidPathError` the handlers test for when logging is not modelled: no file defines it. The path code returns a plain sentinel error with the text `invalid path, or not found`, which the model follows as `InvalidPath`.
- `filepath.EvalSymlinks` is an oracle: a `Link` entry records its final target. Chains, loops and links in intermediate directories are not modelled; a link to a link does not resolve.
- Files.CreateExclusive: looks up the parent directory without following links, where the operating system would follow a link to a directory. Modelling that would need link resolution for every component of a path, not only the last.
- Server.WriteThenRead: holds only when neither the root nor the upload's parent is reached through a link. In the source, a root reached through a link (such as `/tmp` leading to `/private/tmp`; start-up makes the root absolute but does not resolve links) lets the upload create the file, but the download resolves to a path that no longer starts with the root and is rejected.
- Server.SetRootBoundsHandlers: holds only for parent paths free of links. In the source, a directory link inside the root that leads outside it lets an upload, which is resolved without link evaluation, create a file outside the root under either containment test.
- `filepath.Abs` looks up the working directory; the model takes it as a parameter, and `None` stands for the lookup failing.
- Permissions and other operating-system errors are not modelled, beyond missing entries, existing entries and a parent that is not a directory.
- Server.ReadHandler: the byte count is unbounded, not Go's `int64`, because a file that large is out of reach.
- Server.WriteHandler: the byte count is unbounded, not Go's `int64`, for the same reason.
- Windows paths (volume names, `\`) are not modelled; only POSIX `/` paths are.
- Races between check and use and between concurrent exclusive creates are not modelled. They belong to the operating system.
- Partially written files are not cleaned up. The source leaves them in place, and so does the model.
- Resolve.EvaluatePath: the Go error wraps the text of the `Abs` failure; the model keeps only that it was that failure.

## Findings

| source | as written | input that shows it | evidently intended | confidence | as-written member | corrected member |
|---|---|---|---|---|---|---|
| server/path.go:28 | the containment test is a plain string prefix of the root, with no separator boundary | root `/srv/tftp`, request `../tftp-secret/x`: it cleans to `/srv/tftp-secret/x`, which starts with `/srv/tftp` and is accepted, so a download sends the sibling's file and an upload creates a file there | accept only the root itself or paths below it, the root being followed by '/' | high; not executed | Scenarios.SiblingPrefixAccepted | Resolve.BoundaryGateConfines |
