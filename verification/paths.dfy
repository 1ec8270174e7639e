/** The part of Go's `path/filepath` and `strings` packages that the path gate
    relies on, for POSIX paths ('/' separator, no volume names).

    `Clean` follows the lexical rules documented for `filepath.Clean`:
    repeated separators collapse, `.` elements vanish, an inner `..` cancels
    the name before it, and a `..` at the start of a rooted path is dropped
    (it cannot climb above `/`). It is modelled segment-wise: the path is cut
    at every '/', the segments are folded onto a stack of kept names, and the
    stack is rendered back into a string. */
module Paths {
  import opened Results

  type Path = string

  const Sep: char := '/'

  /** Go's `strings.HasPrefix`: a plain character-by-character prefix test. */
  predicate HasPrefix(s: string, prefix: string) {
    |prefix| <= |s| && s[..|prefix|] == prefix
  }

  /** Go's `filepath.IsAbs` on POSIX. */
  predicate IsAbs(p: Path) {
    |p| > 0 && p[0] == Sep
  }

  /** An ordinary directory-entry name: not empty, not `.` and not `..`. */
  predicate IsName(seg: string) {
    seg != "" && seg != "." && seg != ".."
  }

  // ---------------------------------------------------------------------
  // Cutting at separators and gluing back

  /** The pieces of `p` between separators (Go's `strings.Split(p, "/")`). */
  function Split(p: string): (segs: seq<string>)
    ensures |segs| >= 1
    ensures forall k :: 0 <= k < |segs| ==> Sep !in segs[k]
  {
    if p == [] then [""]
    else
      var rest := Split(p[1..]);
      if p[0] == Sep then [""] + rest
      else [[p[0]] + rest[0]] + rest[1..]
  }

  /** The pieces glued with separators (Go's `strings.Join(segs, "/")`). */
  function Unsplit(segs: seq<string>): string
  {
    if |segs| == 0 then ""
    else if |segs| == 1 then segs[0]
    else segs[0] + [Sep] + Unsplit(segs[1..])
  }

  lemma {:induction false} SplitName(s: string)
    requires Sep !in s
    ensures Split(s) == [s]
  {
    if s != [] {
      SplitName(s[1..]);
      assert [s[0]] + s[1..] == s;
    }
  }

  /** A separator cuts the split exactly there. */
  lemma {:induction false} SplitConcat(x: string, y: string)
    ensures Split(x + [Sep] + y) == Split(x) + Split(y)
  {
    if x == [] {
      assert x + [Sep] + y == [Sep] + y;
      assert ([Sep] + y)[1..] == y;
    } else {
      var xy := x + [Sep] + y;
      assert xy[0] == x[0];
      assert xy[1..] == x[1..] + [Sep] + y;
      SplitConcat(x[1..], y);
    }
  }

  /** Gluing undoes cutting. */
  lemma {:induction false} UnsplitSplit(p: string)
    ensures Unsplit(Split(p)) == p
  {
    if p != [] {
      var rest := Split(p[1..]);
      UnsplitSplit(p[1..]);
      if p[0] == Sep {
        assert Split(p) == [""] + rest;
        assert ([""] + rest)[1..] == rest;
        assert p == [Sep] + p[1..];
      } else if |rest| == 1 {
        assert p == [p[0]] + p[1..];
      } else {
        var segs := Split(p);
        assert segs[1..] == rest[1..];
        assert Unsplit(rest) == rest[0] + [Sep] + Unsplit(rest[1..]);
        assert p == [p[0]] + p[1..];
      }
    }
  }

  /** Cutting undoes gluing, for separator-free pieces. */
  lemma {:induction false} SplitUnsplit(segs: seq<string>)
    requires |segs| >= 1
    requires forall k :: 0 <= k < |segs| ==> Sep !in segs[k]
    ensures Split(Unsplit(segs)) == segs
  {
    SplitName(segs[0]);
    if |segs| > 1 {
      SplitUnsplit(segs[1..]);
      SplitConcat(segs[0], Unsplit(segs[1..]));
      assert [segs[0]] + segs[1..] == segs;
    }
  }

  /** Gluing one more piece onto the end. */
  lemma {:induction false} UnsplitSnoc(segs: seq<string>, last: string)
    requires |segs| >= 1
    ensures Unsplit(segs + [last]) == Unsplit(segs) + [Sep] + last
  {
    if |segs| == 1 {
      assert (segs + [last])[1..] == [last];
    } else {
      assert (segs + [last])[1..] == segs[1..] + [last];
      UnsplitSnoc(segs[1..], last);
    }
  }

  /** Gluing two runs of pieces. */
  lemma {:induction false} UnsplitAppend(a: seq<string>, b: seq<string>)
    requires |a| >= 1 && |b| >= 1
    ensures Unsplit(a + b) == Unsplit(a) + [Sep] + Unsplit(b)
  {
    if |a| == 1 {
      assert (a + b)[1..] == b;
    } else {
      assert (a + b)[1..] == a[1..] + b;
      UnsplitAppend(a[1..], b);
    }
  }

  // ---------------------------------------------------------------------
  // Lexical cleaning

  /** Fold one segment onto the stack of kept names. Empty segments (from
      repeated or trailing separators) and `.` are dropped; `..` removes the
      last kept name, stays put at the top of a rooted path, and is kept when
      a relative path has nothing left to cancel. */
  function Push(stack: seq<string>, seg: string, rooted: bool): seq<string>
  {
    if seg == "" || seg == "." then stack
    else if seg == ".." then
      if |stack| > 0 && stack[|stack| - 1] != ".." then stack[..|stack| - 1]
      else if rooted then stack
      else stack + [".."]
    else stack + [seg]
  }

  /** Fold every segment, left to right. */
  function Walk(stack: seq<string>, segs: seq<string>, rooted: bool): seq<string>
    decreases |segs|
  {
    if segs == [] then stack
    else Walk(Push(stack, segs[0], rooted), segs[1..], rooted)
  }

  /** A stack Walk can produce: separator-free names only, except that a
      relative path may begin with a run of `..`. */
  predicate Canonical(stack: seq<string>, rooted: bool) {
    forall k :: 0 <= k < |stack| ==>
      Sep !in stack[k] &&
      (IsName(stack[k]) ||
       (!rooted && stack[k] == ".." && forall j :: 0 <= j < k ==> stack[j] == ".."))
  }

  /** The kept names of `p`, after folding. */
  function Components(p: Path): seq<string>
  {
    Walk([], Split(p), IsAbs(p))
  }

  /** A stack as a path string; an empty relative stack is `.`. */
  function Render(rooted: bool, stack: seq<string>): Path
  {
    if rooted then [Sep] + Unsplit(stack)
    else if stack == [] then "."
    else Unsplit(stack)
  }

  /** Go's `filepath.Clean`. */
  function Clean(p: Path): Path
  {
    if p == "" then "." else Render(IsAbs(p), Components(p))
  }

  /** The shape of a clean path: `/`, `.`, or pieces that are all names,
      except for a run of leading `..` in a relative path. No empty piece
      means no repeated and no trailing separator. */
  predicate IsClean(p: Path) {
    p != "" &&
    if IsAbs(p) then p == "/" || Canonical(Split(p)[1..], true)
    else p == "." || Canonical(Split(p), false)
  }

  lemma {:induction false} WalkAppend(stack: seq<string>, a: seq<string>, b: seq<string>, rooted: bool)
    ensures Walk(stack, a + b, rooted) == Walk(Walk(stack, a, rooted), b, rooted)
    decreases |a|
  {
    if a != [] {
      assert (a + b)[0] == a[0];
      assert (a + b)[1..] == a[1..] + b;
      WalkAppend(Push(stack, a[0], rooted), a[1..], b, rooted);
    } else {
      assert a + b == b;
    }
  }

  lemma PushCanonical(stack: seq<string>, seg: string, rooted: bool)
    requires Canonical(stack, rooted) && Sep !in seg
    ensures Canonical(Push(stack, seg, rooted), rooted)
  {
    if seg == ".." && !(|stack| > 0 && stack[|stack| - 1] != "..") && !rooted {
      var s' := stack + [".."];
      forall k | 0 <= k < |s'|
        ensures Sep !in s'[k] &&
          (IsName(s'[k]) || (!rooted && s'[k] == ".." && forall j :: 0 <= j < k ==> s'[j] == ".."))
      {
        if k == |stack| {
          forall j | 0 <= j < k ensures s'[j] == ".." {
            assert stack[|stack| - 1] == "..";
          }
        } else {
          assert s'[k] == stack[k];
        }
      }
    }
  }

  /** Folding keeps the stack canonical. */
  lemma {:induction false} WalkCanonical(stack: seq<string>, segs: seq<string>, rooted: bool)
    requires Canonical(stack, rooted)
    requires forall k :: 0 <= k < |segs| ==> Sep !in segs[k]
    ensures Canonical(Walk(stack, segs, rooted), rooted)
    decreases |segs|
  {
    if segs != [] {
      PushCanonical(stack, segs[0], rooted);
      WalkCanonical(Push(stack, segs[0], rooted), segs[1..], rooted);
    }
  }

  /** Folding canonical segments onto a stack only appends them. */
  lemma {:induction false} WalkKeeps(stack: seq<string>, segs: seq<string>, rooted: bool)
    requires Canonical(stack + segs, rooted)
    ensures Walk(stack, segs, rooted) == stack + segs
    decreases |segs|
  {
    if segs != [] {
      var all := stack + segs;
      assert all[|stack|] == segs[0];
      if segs[0] == ".." && |stack| > 0 {
        assert stack[|stack| - 1] == all[|stack| - 1];
      }
      assert Push(stack, segs[0], rooted) == stack + [segs[0]];
      assert (stack + [segs[0]]) + segs[1..] == all;
      WalkKeeps(stack + [segs[0]], segs[1..], rooted);
    }
  }

  lemma CanonicalComponents(p: Path)
    ensures Canonical(Components(p), IsAbs(p))
  {
    WalkCanonical([], Split(p), IsAbs(p));
  }

  /** Splitting a rendered rooted stack. */
  lemma SplitRenderRooted(stack: seq<string>)
    requires Canonical(stack, true) && stack != []
    ensures Split(Render(true, stack)) == [""] + stack
  {
    SplitUnsplit(stack);
    SplitConcat("", Unsplit(stack));
    assert "" + [Sep] + Unsplit(stack) == Render(true, stack);
  }

  lemma SplitSlash()
    ensures Split("/") == ["", ""]
  {
    SplitConcat("", "");
    assert "" + [Sep] + "" == "/";
  }

  /** Rendering then reading back the components is the identity on
      canonical stacks. */
  lemma {:induction false} ComponentsRender(rooted: bool, stack: seq<string>)
    requires Canonical(stack, rooted)
    ensures IsAbs(Render(rooted, stack)) == rooted
    ensures Components(Render(rooted, stack)) == stack
  {
    var r := Render(rooted, stack);
    if rooted {
      if stack == [] {
        assert r == "/";
        SplitSlash();
        assert Walk([], ["", ""], true) == [];
      } else {
        SplitRenderRooted(stack);
        assert Walk([], [""] + stack, true) == Walk([], stack, true);
        WalkKeeps([], stack, true);
        assert [] + stack == stack;
      }
    } else if stack == [] {
      assert r == ".";
      SplitName(".");
      assert Walk([], ["."], false) == [];
    } else {
      assert r == Unsplit(stack);
      UnsplitHead(stack);
      SplitUnsplit(stack);
      WalkKeeps([], stack, false);
      assert [] + stack == stack;
    }
  }

  lemma {:induction false} UnsplitHead(stack: seq<string>)
    requires |stack| >= 1 && stack[0] != ""
    ensures |Unsplit(stack)| > 0 && Unsplit(stack)[0] == stack[0][0]
  {
    if |stack| > 1 {
      assert Unsplit(stack) == stack[0] + ([Sep] + Unsplit(stack[1..]));
    }
  }

  /** A rendered canonical stack is clean. */
  lemma RenderIsClean(rooted: bool, stack: seq<string>)
    requires Canonical(stack, rooted)
    ensures IsClean(Render(rooted, stack))
  {
    ComponentsRender(rooted, stack);
    var r := Render(rooted, stack);
    if rooted && stack != [] {
      SplitRenderRooted(stack);
      assert Split(r)[1..] == stack;
    } else if !rooted && stack != [] {
      SplitUnsplit(stack);
    }
  }

  /** Cleaning yields a clean path, rooted exactly when the input is. */
  lemma CleanIsClean(p: Path)
    ensures IsClean(Clean(p))
    ensures IsAbs(Clean(p)) == IsAbs(p)
  {
    if p != "" {
      CanonicalComponents(p);
      RenderIsClean(IsAbs(p), Components(p));
      ComponentsRender(IsAbs(p), Components(p));
    }
  }

  /** A clean path is left alone by Clean, and only a clean path is: the
      clean paths are exactly the fixed points of Clean. */
  lemma CleanFixpoint(p: Path)
    ensures IsClean(p) <==> Clean(p) == p
  {
    if IsClean(p) {
      var segs := Split(p);
      UnsplitSplit(p);
      if IsAbs(p) {
        if p == "/" {
          SplitSlash();
          assert Walk([], ["", ""], true) == [];
        } else {
          assert segs[0] == "" by {
            assert p == [p[0]] + p[1..];
          }
          assert segs == [""] + segs[1..];
          WalkKeeps([], segs[1..], true);
          assert [] + segs[1..] == segs[1..];
          assert Components(p) == Walk([], segs[1..], true);
          assert Unsplit(segs) == "" + [Sep] + Unsplit(segs[1..]);
        }
      } else if p == "." {
        SplitName(".");
        assert Walk([], ["."], false) == [];
      } else {
        WalkKeeps([], segs, false);
        assert [] + segs == segs;
        assert segs[0] != "";
      }
    } else {
      CleanIsClean(p);
    }
  }

  /** Cleaning twice is cleaning once. */
  lemma CleanIdempotent(p: Path)
    ensures Clean(Clean(p)) == Clean(p)
  {
    CleanIsClean(p);
    CleanFixpoint(Clean(p));
  }

  // ---------------------------------------------------------------------
  // Join, Abs, Dir

  /** Go's `filepath.Join` for two elements: empty elements are skipped, the
      rest are glued with '/' and the result is cleaned. */
  function Join(a: Path, b: Path): (r: Path)
    ensures r == "" <==> a == "" && b == ""
    ensures r != "" ==> IsClean(r)
  {
    CleanIsClean(a + [Sep] + b);
    CleanIsClean(b);
    if a != "" then Clean(a + [Sep] + b)
    else if b != "" then Clean(b)
    else ""
  }

  /** Go's `filepath.Abs` on POSIX: an absolute path is only cleaned; a
      relative one is joined onto the working directory, and fails when the
      working directory cannot be obtained (`cwd` is None). */
  function Abs(p: Path, cwd: Option<Path>): (r: Option<Path>)
    ensures IsAbs(p) ==> r.Some?
    ensures r.Some? && IsAbs(p) ==> IsClean(r.value) && IsAbs(r.value)
    // an absolute path keeps its meaning: the same components, and a clean
    // absolute path is returned as it is
    ensures IsAbs(p) ==> Components(r.value) == Components(p)
    ensures IsRoot(p) ==> r == Some(p)
    // a relative path fails exactly when the working directory is unknown
    ensures !IsAbs(p) ==> (r.None? <==> cwd.None?)
  {
    CleanIsClean(p);
    CleanFixpoint(p);
    CanonicalComponents(p);
    ComponentsRender(IsAbs(p), Components(p));
    if IsAbs(p) then Some(Clean(p))
    else if cwd.None? then None
    else Some(Join(cwd.value, p))
  }

  /** Position just after the last separator of `p`, or 0 without one. */
  function AfterLastSep(p: string): (i: nat)
    ensures i <= |p|
    ensures i > 0 ==> p[i - 1] == Sep
    ensures forall k :: i <= k < |p| ==> p[k] != Sep
  {
    if p == [] then 0
    else if p[|p| - 1] == Sep then |p|
    else AfterLastSep(p[..|p| - 1])
  }

  /** Go's `filepath.Dir`: everything up to the last separator, cleaned. */
  function Dir(p: Path): Path
  {
    Clean(p[..AfterLastSep(p)])
  }

  /** The path of `name` directly inside the clean directory `dir`. */
  function Child(dir: Path, name: string): Path
  {
    if dir == "/" then dir + name else dir + [Sep] + name
  }

  // ---------------------------------------------------------------------
  // Joining onto a clean absolute root

  /** A clean absolute root, as `filepath.Abs` produces at start-up. */
  predicate IsRoot(root: Path) {
    IsAbs(root) && IsClean(root)
  }

  lemma RootRender(root: Path)
    requires IsRoot(root)
    ensures Canonical(Components(root), true)
    ensures Render(true, Components(root)) == root
  {
    CanonicalComponents(root);
    CleanFixpoint(root);
  }

  /** Joining a request onto a clean absolute root folds the request's
      segments onto the root's components. */
  lemma {:induction false} JoinOntoRoot(root: Path, u: Path)
    requires IsRoot(root)
    ensures Join(root, u) == Render(true, Walk(Components(root), Split(u), true))
  {
    SplitConcat(root, u);
    var joined := root + [Sep] + u;
    assert IsAbs(joined) by { assert joined[0] == root[0]; }
    WalkAppend([], Split(root), Split(u), true);
  }

  /** The join of anything onto a clean absolute root is clean and absolute:
      no `.`, no `..`, no repeated or trailing '/'. */
  lemma JoinOntoRootIsClean(root: Path, u: Path)
    requires IsRoot(root)
    ensures IsRoot(Join(root, u))
  {
    var joined := root + [Sep] + u;
    assert IsAbs(joined) by { assert joined[0] == root[0]; }
    CleanIsClean(joined);
  }

  /** `..` at the top of a rooted path stays at `/`: however many `..` a
      rooted path holds, its cleaned form has no `..` element. */
  lemma RootedNeverClimbs(p: Path)
    requires IsAbs(p)
    ensures IsAbs(Clean(p))
    ensures forall k :: 0 <= k < |Components(p)| ==> Components(p)[k] != ".."
  {
    CleanIsClean(p);
    CanonicalComponents(p);
  }

  /** The root's own last component, which `filepath.Base` returns for it. */
  function LastComponent(root: Path): string
    requires |Components(root)| > 0
  {
    var c := Components(root);
    c[|c| - 1]
  }

  /** A request with no `..` element only descends: the joined path is the
      root's components followed by the request's names. */
  lemma {:induction false} WalkDescends(stack: seq<string>, segs: seq<string>)
    requires forall k :: 0 <= k < |segs| ==> segs[k] != ".."
    ensures stack <= Walk(stack, segs, true)
    decreases |segs|
  {
    if segs != [] {
      var next := Push(stack, segs[0], true);
      assert stack <= next;
      WalkDescends(next, segs[1..]);
    }
  }

  /** Joining onto an absolute directory gives an absolute path that is
      already clean, so `filepath.Abs` leaves it unchanged. */
  lemma JoinAbsolute(dir: Path, u: Path)
    ensures IsAbs(dir) ==> IsAbs(Join(dir, u)) && Clean(Join(dir, u)) == Join(dir, u)
  {
    if IsAbs(dir) {
      var joined := dir + [Sep] + u;
      assert IsAbs(joined) by { assert joined[0] == dir[0]; }
      CleanIsClean(joined);
      CleanIdempotent(joined);
    }
  }

  /** Joining a plain name onto a clean absolute root appends it. */
  lemma JoinName(root: Path, name: string)
    requires IsRoot(root) && IsName(name) && Sep !in name
    ensures Join(root, name) == Child(root, name)
    ensures Components(Join(root, name)) == Components(root) + [name]
  {
    var s := Components(root);
    RootRender(root);
    JoinOntoRoot(root, name);
    SplitName(name);
    WalkName(s, name);
    ComponentsRender(true, s + [name]);
    RenderSnoc(root, name);
  }

  /** Pushing a plain name onto a canonical rooted stack appends it. */
  lemma WalkName(s: seq<string>, name: string)
    requires Canonical(s, true) && IsName(name) && Sep !in name
    ensures Walk(s, [name], true) == s + [name]
    ensures Canonical(s + [name], true)
  {
    assert Walk(s, [name], true) == s + [name];
  }

  /** Rendering a root's components followed by a name is the root's child. */
  lemma RenderSnoc(root: Path, name: string)
    requires IsRoot(root)
    ensures Render(true, Components(root) + [name]) == Child(root, name)
  {
    var s := Components(root);
    RootRender(root);
    if s == [] {
      assert Unsplit([name]) == name;
    } else {
      UnsplitSnoc(s, name);
      UnsplitHead(s);
      assert root != "/";
      assert [Sep] + (Unsplit(s) + [Sep] + name) == root + [Sep] + name;
    }
  }

  /** The parent of a clean absolute root other than `/` is strictly shorter
      than the root. */
  lemma ParentShorter(root: Path)
    requires IsRoot(root) && |Components(root)| > 0
    ensures var s := Components(root);
      |Render(true, s[..|s| - 1])| < |root|
  {
    var s := Components(root);
    RootRender(root);
    var n := |s|;
    assert s == s[..n - 1] + [s[n - 1]];
    if n > 1 {
      UnsplitSnoc(s[..n - 1], s[n - 1]);
    } else {
      assert s[..n - 1] == [];
      assert IsName(s[0]);
    }
  }

  /** `filepath.Dir` of a name directly inside a clean absolute root is the
      root. */
  lemma DirOfChild(root: Path, name: string)
    requires IsRoot(root) && IsName(name) && Sep !in name
    ensures Dir(Child(root, name)) == root
  {
    var c := Child(root, name);
    var i := AfterLastSep(c);
    var cut := if root == "/" then 0 else |root|;
    assert c[cut] == Sep;
    assert c[cut + 1..] == name;
    forall k | cut < k < |c| ensures c[k] != Sep {
      assert c[k] == name[k - cut - 1];
      assert name[k - cut - 1] in name;
    }
    assert i == cut + 1;
    if root == "/" {
      assert c[..i] == "/";
      assert IsClean("/");
      CleanFixpoint("/");
    } else {
      assert c[..i] == root + [Sep] + "";
      SplitConcat(root, "");
      SplitName("");
      WalkAppend([], Split(root), [""], true);
      RootRender(root);
      assert IsAbs(c[..i]);
    }
  }
}
