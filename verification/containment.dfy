/** Two ways to ask whether a path lies inside a root directory: the plain
    string-prefix test the server performs, and the segment-boundary test a
    path-confinement gate needs. For clean absolute paths both are related
    here to the paths' components. */
module Containment {
  import opened Paths

  /** Boundary-aware containment: `p` is the root itself or lies below it,
      the root being followed by a separator in `p`. */
  predicate IsBeneath(root: Path, p: Path) {
    p == root || HasPrefix(p, if root == "/" then root else root + [Sep])
  }

  /** The first piece of a glued sequence, followed by the separator that
      ends it when more pieces follow. */
  lemma UnsplitFirst(t: seq<string>)
    requires |t| >= 1
    ensures HasPrefix(Unsplit(t), t[0])
    ensures |t| > 1 ==> |Unsplit(t)| > |t[0]| && Unsplit(t)[|t[0]|] == Sep
    ensures |t| > 1 ==> Unsplit(t)[|t[0]| + 1..] == Unsplit(t[1..])
    ensures |t| == 1 ==> Unsplit(t) == t[0]
  {
    if |t| > 1 {
      assert Unsplit(t) == t[0] + [Sep] + Unsplit(t[1..]);
    }
  }

  /** Two separator-free pieces that both sit at the start of one string,
      each followed there by a separator or the end of the string, are the
      same piece. */
  lemma SamePiece(u: string, a: string, b: string)
    requires Sep !in a && Sep !in b
    requires HasPrefix(u, a) && HasPrefix(u, b)
    requires |u| > |a| ==> u[|a|] == Sep
    requires |u| > |b| ==> u[|b|] == Sep
    ensures a == b
  {
    if |a| == |b| {
      assert a == u[..|a|] == b;
    }
  }

  /** A glued sequence followed by a separator is a prefix of another glued
      sequence exactly when the first sequence is a proper prefix of the
      second. */
  lemma {:induction false} UnsplitSepPrefix(s: seq<string>, t: seq<string>)
    requires |s| >= 1
    requires forall k :: 0 <= k < |s| ==> Sep !in s[k]
    requires forall k :: 0 <= k < |t| ==> Sep !in t[k]
    ensures HasPrefix(Unsplit(t), Unsplit(s) + [Sep]) <==> |s| < |t| && s == t[..|s|]
    decreases |s|
  {
    var u := Unsplit(t);
    var w := Unsplit(s) + [Sep];
    UnsplitFirst(s);
    assert HasPrefix(w, s[0]);
    assert w[|s[0]|] == Sep;
    if HasPrefix(u, w) {
      assert |t| >= 1;
      UnsplitFirst(t);
      assert HasPrefix(u, s[0]) by {
        assert u[..|s[0]|] == w[..|s[0]|];
      }
      SamePiece(u, s[0], t[0]);
      if |s| > 1 {
        var w' := Unsplit(s[1..]) + [Sep];
        assert w[|s[0]| + 1..] == w';
        assert HasPrefix(Unsplit(t[1..]), w') by {
          assert u[|s[0]| + 1..][..|w'|] == u[..|w|][|s[0]| + 1..];
        }
        UnsplitSepPrefix(s[1..], t[1..]);
        assert s == [s[0]] + s[1..];
        assert t[..|s|] == [t[0]] + t[1..][..|s| - 1];
      }
    }
    if |s| < |t| && s == t[..|s|] {
      assert t == s + t[|s|..];
      UnsplitAppend(s, t[|s|..]);
      assert u == w + Unsplit(t[|s|..]);
    }
  }

  /** The root's components are never empty pieces, so a non-`/` root does
      not end with a separator and `root + "/"` is its directory form. */
  lemma RootIsSlashIffNoComponents(root: Path)
    requires IsRoot(root)
    ensures root == "/" <==> Components(root) == []
  {
    RootRender(root);
    var c := Components(root);
    if c != [] {
      UnsplitHead(c);
    }
  }

  /** For clean absolute paths, boundary-aware containment is exactly
      "the root's components are a prefix of the path's components". */
  lemma BeneathIffComponentPrefix(root: Path, p: Path)
    requires IsRoot(root) && IsRoot(p)
    ensures IsBeneath(root, p) <==> Components(root) <= Components(p)
  {
    var s := Components(root);
    var t := Components(p);
    RootRender(root);
    RootRender(p);
    RootIsSlashIffNoComponents(root);
    if s != [] {
      assert root + [Sep] == [Sep] + (Unsplit(s) + [Sep]);
      assert HasPrefix(p, root + [Sep]) <==> HasPrefix(Unsplit(t), Unsplit(s) + [Sep]) by {
        assert p == [Sep] + Unsplit(t);
        if HasPrefix(Unsplit(t), Unsplit(s) + [Sep]) {
          assert p[..|root + [Sep]|] == [Sep] + Unsplit(t)[..|Unsplit(s) + [Sep]|];
        }
        if HasPrefix(p, root + [Sep]) {
          assert Unsplit(t)[..|Unsplit(s) + [Sep]|] == p[..|root + [Sep]|][1..];
        }
      }
      UnsplitSepPrefix(s, t);
      if s <= t && |s| == |t| {
        assert s == t;
      }
    } else {
      assert p[..1] == "/";
    }
  }

  /** A glued sequence is a prefix of another glued sequence exactly when
      they agree up to the last piece of the first, and that last piece only
      needs to be a prefix of the corresponding piece of the second. */
  lemma {:induction false} UnsplitPrefix(s: seq<string>, t: seq<string>)
    requires |s| >= 1 && |t| >= 1
    requires forall k :: 0 <= k < |s| ==> Sep !in s[k]
    requires forall k :: 0 <= k < |t| ==> Sep !in t[k]
    ensures HasPrefix(Unsplit(t), Unsplit(s)) <==>
      (|s| <= |t| && s[..|s| - 1] == t[..|s| - 1] && HasPrefix(t[|s| - 1], s[|s| - 1]))
    decreases |s|
  {
    var u := Unsplit(t);
    var w := Unsplit(s);
    UnsplitFirst(s);
    UnsplitFirst(t);
    var n := |s|;
    if n == 1 {
      assert w == s[0];
      if HasPrefix(u, w) {
        assert t[0][..|s[0]|] == u[..|s[0]|];
      }
      if HasPrefix(t[0], s[0]) {
        assert u[..|s[0]|] == t[0][..|s[0]|];
      }
    } else {
      var w' := Unsplit(s[1..]);
      assert w[|s[0]| + 1..] == w';
      var lhs := HasPrefix(u, w);
      var rhs := |s| <= |t| && s[..n - 1] == t[..n - 1] && HasPrefix(t[n - 1], s[n - 1]);
      if lhs {
        assert HasPrefix(u, s[0]) by {
          assert u[..|s[0]|] == w[..|s[0]|];
        }
        SamePiece(u, s[0], t[0]);
        assert HasPrefix(Unsplit(t[1..]), w') by {
          assert Unsplit(t[1..])[..|w'|] == u[..|w|][|s[0]| + 1..];
        }
        UnsplitPrefix(s[1..], t[1..]);
        assert s[..n - 1] == [s[0]] + s[1..][..n - 2];
        assert t[..n - 1] == [t[0]] + t[1..][..n - 2];
      }
      if rhs {
        assert s[0] == t[0] by { assert s[..n - 1][0] == t[..n - 1][0]; }
        assert |t| > 1;
        assert s[1..][..n - 2] == t[1..][..n - 2] by {
          assert s[1..][..n - 2] == s[..n - 1][1..];
          assert t[1..][..n - 2] == t[..n - 1][1..];
        }
        assert s[1..][n - 2] == s[n - 1] && t[1..][n - 2] == t[n - 1];
        UnsplitPrefix(s[1..], t[1..]);
        assert HasPrefix(Unsplit(t[1..]), w');
        assert u == t[0] + [Sep] + Unsplit(t[1..]);
        assert w == s[0] + [Sep] + w';
        assert u[..|w|] == w;
      }
    }
  }

  /** For clean absolute paths below a root other than `/`, the plain string
      prefix test accepts exactly the paths that agree with the root on every
      component but the root's last, and whose component at that depth only
      begins with the root's last name. The boundary-aware test is the case
      where that component equals the name; every other accepted path sits
      in a sibling directory whose name extends the root's. */
  lemma LiteralPrefixCharacterised(root: Path, p: Path)
    requires IsRoot(root) && IsRoot(p) && root != "/"
    ensures var s := Components(root); var t := Components(p); var n := |s|;
      n >= 1 &&
      (HasPrefix(p, root) <==>
        (n <= |t| && s[..n - 1] == t[..n - 1] && HasPrefix(t[n - 1], s[n - 1])))
  {
    var s := Components(root);
    var t := Components(p);
    RootRender(root);
    RootRender(p);
    RootIsSlashIffNoComponents(root);
    if t == [] {
      assert p == "/";
      assert !HasPrefix(p, root) by {
        UnsplitHead(s);
      }
    } else {
      assert HasPrefix(p, root) <==> HasPrefix(Unsplit(t), Unsplit(s)) by {
        assert p == [Sep] + Unsplit(t);
        assert root == [Sep] + Unsplit(s);
        if HasPrefix(Unsplit(t), Unsplit(s)) {
          assert p[..|root|] == [Sep] + Unsplit(t)[..|Unsplit(s)|];
        }
        if HasPrefix(p, root) {
          assert Unsplit(t)[..|Unsplit(s)|] == p[..|root|][1..];
        }
      }
      UnsplitPrefix(s, t);
    }
  }

  /** Every path the boundary-aware test accepts, the string test accepts
      too: the correction only ever rejects more. */
  lemma BeneathImpliesPrefix(root: Path, p: Path)
    ensures IsBeneath(root, p) ==> HasPrefix(p, root)
  {
    if IsBeneath(root, p) && p != root && root != "/" {
      assert p[..|root|] == p[..|root + [Sep]|][..|root|];
    }
  }

  /** A clean absolute path that has a root other than `/` as a string
      prefix, without lying beneath it, sits in a sibling of the root whose
      name is the root's last name extended by more characters. */
  lemma PrefixWithoutBoundaryIsSibling(root: Path, p: Path)
    requires IsRoot(root) && IsRoot(p) && root != "/" && HasPrefix(p, root)
    ensures var s := Components(root);
      var t := Components(p);
      var n := |s|;
      0 < n <= |t| &&
      (IsBeneath(root, p) || (s[..n - 1] == t[..n - 1] && |s[n - 1]| < |t[n - 1]| &&
                              HasPrefix(t[n - 1], s[n - 1])))
  {
    LiteralPrefixCharacterised(root, p);
    BeneathIffComponentPrefix(root, p);
    var s := Components(root);
    var t := Components(p);
    var n := |s|;
    SameLengthPrefix(s[n - 1], t[n - 1]);
    PrefixByLast(s, t);
  }

  lemma SameLengthPrefix(a: string, b: string)
    ensures |a| == |b| && HasPrefix(b, a) ==> a == b
  {
  }

  lemma PrefixByLast<T>(s: seq<T>, t: seq<T>)
    requires 0 < |s| <= |t|
    ensures s[..|s| - 1] == t[..|s| - 1] && s[|s| - 1] == t[|s| - 1] ==> s <= t
  {
    if s[..|s| - 1] == t[..|s| - 1] && s[|s| - 1] == t[|s| - 1] {
      assert s == s[..|s| - 1] + [s[|s| - 1]];
      assert t[..|s|] == t[..|s| - 1] + [t[|s| - 1]];
    }
  }
}
