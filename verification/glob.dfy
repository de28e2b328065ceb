/** The paths glob produces for a pattern made of `root`, one `*` component
    (the angle directory) and a fixed rest, and the rule `path.split(root)[1].split('/')[0]`
    that reads an angle back out of such a path. */
module Glob {
  import opened Wrappers
  import opened PyErrors
  import opened PyText

  /** `s` without its trailing `'/'` characters. */
  function RStripSlashes(s: string): (r: string)
    ensures |r| <= |s| && r == s[..|r|]
    ensures r == "" || r[|r| - 1] != '/'
    ensures forall i :: |r| <= i < |s| ==> s[i] == '/'
    decreases |s|
  {
    if |s| > 0 && s[|s| - 1] == '/' then RStripSlashes(s[..|s| - 1]) else s
  }

  /** The text glob puts in front of each name that the `*` after `root` matches:
      `os.path.split` drops the trailing separators of the directory part
      unless it is nothing but separators, and `os.path.join` adds one back. */
  function GlobDir(root: string): string {
    var head := root + "/";
    var h := RStripSlashes(head);
    if h == "" then head else h + "/"
  }

  /** The path glob returns for angle directory `name`, where `tail` is the
      rest of the pattern after the `*` (`'/' + theory + '/' + fname` for the
      QM scan, `'/' + fname` for the MM scan). */
  function GlobPath(root: string, name: string, tail: string): string {
    GlobDir(root) + name + tail
  }

  /** `path.split(root)[1].split('/')[0]`: the text after the first `root`,
      up to the next `root` and then up to the first `'/'`. */
  function AngleSegment(path: string, root: string): (r: Result<string, Error>)
    ensures r == Failure(EmptySeparator) <==> root == ""
    ensures r == Failure(IndexOutOfRange) <==> root != "" && !Contains(path, root)
    ensures r.Success? ==> !Contains(r.value, "/")
  {
    var parts :- SplitOn(path, root);
    SplitCount(path, root);
    if |parts| < 2 then Failure(IndexOutOfRange) else Success(Split(parts[1], "/")[0])
  }

  /** `s.split(sep)` has more than one piece exactly when `sep` occurs in `s`. */
  lemma SplitCount(s: string, sep: string)
    requires |sep| > 0
    ensures |Split(s, sep)| >= 2 <==> Contains(s, sep)
  {
  }

  /** A string that starts with `sep` splits into an empty piece and the
      split of the rest. */
  lemma SplitAtStart(s: string, sep: string)
    requires |sep| > 0 && MatchAt(s, sep, 0)
    ensures Split(s, sep) == [""] + Split(s[|sep|..], sep)
  {
    FindFirst(s, sep, 0);
  }

  /** With no occurrence of `sep` starting before `i`, the first piece of the
      split covers at least the first `i` characters. */
  lemma SplitFirstBefore(s: string, sep: string, i: nat)
    requires |sep| > 0 && i <= |s|
    requires forall j :: 0 <= j < i ==> !MatchAt(s, sep, j)
    ensures var p := Split(s, sep)[0]; i <= |p| <= |s| && p == s[..|p|]
  {
    match Find(s, sep)
    case None =>
      assert s[..|s|] == s;
    case Some(k) =>
      assert MatchAt(s, sep, k);
  }

  /** The first `'/'`-separated piece of `name + rest`, when `name` holds no
      `'/'` and `rest` is empty or starts a new component, is `name`. */
  lemma FirstSegment(name: string, rest: string)
    requires forall i :: 0 <= i < |name| ==> name[i] != '/'
    requires rest == "" || rest[0] == '/'
    ensures Split(name + rest, "/")[0] == name
  {
    var s := name + rest;
    forall j | 0 <= j < |name| ensures !MatchAt(s, "/", j) {
      MatchChar(s, '/', j);
      assert s[j] == name[j];
    }
    if rest == "" {
      assert s == name;
      forall j | 0 <= j <= |s| ensures !MatchAt(s, "/", j) {
        MatchChar(s, '/', j);
      }
      assert Find(s, "/").None?;
      assert s[..|s|] == s;
    } else {
      MatchChar(s, '/', |name|);
      assert s[|name|] == rest[0];
      FindFirst(s, "/", |name|);
      assert s[..|name|] == name;
    }
  }

  lemma DirWithoutSlash(base: string)
    requires base != "" && base[|base| - 1] != '/'
    ensures GlobDir(base) == base + "/"
  {
    assert (base + "/")[..|base|] == base;
  }

  lemma DirWithSlash(base: string)
    requires base != "" && base[|base| - 1] != '/'
    ensures GlobDir(base + "/") == base + "/"
  {
    var head := base + "/" + "/";
    assert head[..|head| - 1] == base + "/";
    assert (base + "/")[..|base|] == base;
  }

  /** A root given without a trailing `'/'` (`qm`): glob returns `qm/<angle>/...`,
      the text after the root starts with `'/'`, and the angle read back is
      the empty text, whatever the directory is called. */
  lemma AngleWithoutSlash(base: string, name: string, tail: string)
    requires base != "" && base[|base| - 1] != '/'
    ensures AngleSegment(GlobPath(base, name, tail), base) == Success("")
  {
    DirWithoutSlash(base);
    var path := GlobPath(base, name, tail);
    var after := "/" + name + tail;
    assert path == base + after;
    assert path[..|base|] == base;
    SplitAtStart(path, base);
    assert path[|base|..] == after;
    SplitFirstBefore(after, base, 0);
    var piece := Split(after, base)[0];
    assert piece == "" || piece[0] == '/';
    FirstSegment("", piece);
    assert "" + piece == piece;
  }

  /** A root that overlaps itself is cut at its leftmost occurrence: with
      root `a/b/a/` the path `a/b/a/b/a/out.dat` reads the angle `b`. */
  lemma AngleOverlappingRoot(root: string, path: string)
    requires root == "a/b/a/" && path == "a/b/a/b/a/out.dat"
    ensures AngleSegment(path, root) == Success("b")
  {
    var name, rest := "b", "/a/out.dat";
    assert path == root + (name + rest);
    assert name + rest == "b/a/out.dat";
    RootAbsent();
    AngleAfterRoot(root, name, rest);
  }

  /** A path that starts with the root and holds no second occurrence of it
      reads the name after the root, up to the first `'/'`. */
  lemma AngleAfterRoot(root: string, name: string, rest: string)
    requires |root| > 0 && !Contains(name + rest, root)
    requires forall i :: 0 <= i < |name| ==> name[i] != '/'
    requires rest == "" || rest[0] == '/'
    ensures AngleSegment(root + (name + rest), root) == Success(name)
  {
    var after := name + rest;
    SplitAfterRoot(root, after);
    assert Split(after, root) == [after];
    FirstSegment(name, rest);
  }

  /** `a/b/a/` does not occur in `b/a/out.dat`: no `b` sits where its third
      character would have to. */
  lemma RootAbsent()
    ensures !Contains("b/a/out.dat", "a/b/a/")
  {
    var root, after := "a/b/a/", "b/a/out.dat";
    assert forall m :: 2 <= m < |after| ==> after[m] != 'b';
    forall j | 0 <= j <= |after| ensures !MatchAt(after, root, j) {
      if j + |root| <= |after| {
        assert after[j..j + |root|][2] == after[j + 2];
      }
    }
  }

  /** A root given with one trailing `'/'` (`qm/`): the angle read back is the
      directory name, provided the root does not also start inside that name. */
  lemma AngleWithSlash(base: string, name: string, tail: string)
    requires base != "" && base[|base| - 1] != '/'
    requires forall i :: 0 <= i < |name| ==> name[i] != '/'
    requires tail == "" || tail[0] == '/'
    requires forall j :: 0 <= j < |name| ==> !MatchAt(name + tail, base + "/", j)
    ensures AngleSegment(GlobPath(base + "/", name, tail), base + "/") == Success(name)
  {
    var root := base + "/";
    assert GlobPath(root, name, tail) == root + (name + tail) by {
      DirWithSlash(base);
    }
    SplitAfterRoot(root, name + tail);
    NameBeforeRoot(name, tail, root);
  }

  /** A path that starts with the root splits into an empty piece and then
      the first piece of what follows the root. */
  lemma SplitAfterRoot(root: string, after: string)
    requires |root| > 0
    ensures var parts := Split(root + after, root);
      |parts| >= 2 && parts[1] == Split(after, root)[0]
  {
    var path := root + after;
    assert MatchAt(path, root, 0) by {
      assert path[..|root|] == root;
    }
    SplitAtStart(path, root);
    assert path[|root|..] == after;
  }

  /** The text after the root, cut at the next root and then at the first
      `'/'`, is the directory name when the root does not start inside it. */
  lemma NameBeforeRoot(name: string, tail: string, root: string)
    requires |root| > 0
    requires forall i :: 0 <= i < |name| ==> name[i] != '/'
    requires tail == "" || tail[0] == '/'
    requires forall j :: 0 <= j < |name| ==> !MatchAt(name + tail, root, j)
    ensures Split(Split(name + tail, root)[0], "/")[0] == name
  {
    var piece := Split(name + tail, root)[0];
    assert |name| <= |piece| && piece == (name + tail)[..|piece|] by {
      SplitFirstBefore(name + tail, root, |name|);
    }
    NameThenSlash(name, tail, piece);
  }

  /** A prefix of `name + tail` at least as long as `name`, cut at its first
      `'/'`, is `name`. */
  lemma NameThenSlash(name: string, tail: string, piece: string)
    requires forall i :: 0 <= i < |name| ==> name[i] != '/'
    requires tail == "" || tail[0] == '/'
    requires |name| <= |piece| <= |name| + |tail| && piece == (name + tail)[..|piece|]
    ensures Split(piece, "/")[0] == name
  {
    var after := name + tail;
    var rest := piece[|name|..];
    assert piece == name + rest by {
      assert piece[..|name|] == name by {
        forall i | 0 <= i < |name| ensures piece[i] == name[i] {
          assert piece[i] == after[i];
        }
      }
      assert piece == piece[..|name|] + rest;
    }
    assert rest == "" || rest[0] == '/' by {
      if rest != "" {
        assert rest[0] == piece[|name|] == after[|name|] == tail[0];
      }
    }
    FirstSegment(name, rest);
  }
}
