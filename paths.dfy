/**
  The path arithmetic `traverse` does on strings: Python's `str.split('/')`,
  `'/'.join`, the two-argument `posixpath.join`, and the relative name an entry
  is recorded under (the full path split on `/`, its first components
  dropped, the rest joined again).
*/
module Paths {
  import opened Wrappers

  const Sep: char := '/'

  /** `s.split('/')`: the pieces between separators; the empty string splits into one empty piece. */
  function Split(s: string): (parts: seq<string>)
    ensures |parts| >= 1
    ensures forall k :: 0 <= k < |parts| ==> Sep !in parts[k]
  {
    if s == [] then [""]
    else
      var rest := Split(s[1..]);
      if s[0] == Sep then [""] + rest
      else [[s[0]] + rest[0]] + rest[1..]
  }

  /** `'/'.join(parts)`. */
  function JoinSlash(parts: seq<string>): string
    requires |parts| >= 1
  {
    if |parts| == 1 then parts[0] else parts[0] + [Sep] + JoinSlash(parts[1..])
  }

  /** `posixpath.join(a, b)`: an absolute `b` replaces `a`; a separator is added only where missing. */
  function PathJoin(a: string, b: string): (r: string)
    ensures |b| > 0 && b[0] == Sep ==> r == b
  {
    if |b| > 0 && b[0] == Sep then b
    else if a == [] || a[|a| - 1] == Sep then a + b
    else a + [Sep] + b
  }

  /**
    `r` is `a`, then a separator exactly when `a` is non-empty and does not
    already end with one, then `b`.
  */
  predicate JoinedWithOneSep(a: string, b: string, r: string)
  {
    |a| + |b| <= |r| <= |a| + 1 + |b| && r[..|a|] == a && r[|r| - |b|..] == b &&
    (|r| > |a| + |b| ==> r[|a|] == Sep) &&
    (|r| == |a| + |b| <==> (a == [] || a[|a| - 1] == Sep))
  }

  /** Unless `b` is absolute, joining keeps `a` in front and `b` at the end. */
  lemma PathJoinKeepsBoth(a: string, b: string)
    requires !(|b| > 0 && b[0] == Sep)
    ensures JoinedWithOneSep(a, b, PathJoin(a, b))
  {
  }

  /** `os.path.join(*parts)`, which needs at least one argument. */
  function JoinAll(parts: seq<string>): (r: string)
    requires |parts| >= 1
  {
    if |parts| == 1 then parts[0] else PathJoin(JoinAll(parts[..|parts| - 1]), parts[|parts| - 1])
  }

  /**
    The relative name of `full` once its first `depth` components are dropped;
    None where nothing is left, for there `os.path.join()` has no argument and
    raises.
  */
  function RelPath(full: string, depth: nat): (r: Option<string>)
  {
    var parts := Split(full);
    if depth < |parts| then Some(JoinAll(parts[depth..])) else None
  }

  /** The number of components dropped for a scan of the normalised root `path`, as written. */
  function RootDepthAsWritten(path: string): (n: nat)
    ensures n >= 1
    ensures Sep !in path ==> n == 1
    ensures path == [Sep] ==> n == 2
  {
    var n := |Split(path)|;
    assert Sep !in path ==> n == 1 by {
      if Sep !in path { SplitPlain(path); }
    }
    assert path == [Sep] ==> n == 2 by {
      if path == [Sep] { SplitOfRoot(); }
    }
    n
  }

  /**
    The number of components dropped for a scan of the normalised root `path`:
    the root `/` splits into two empty pieces but stands for one level.
  */
  function RootDepth(path: string): nat
  {
    if path != [] && path[|path| - 1] == Sep then |Split(path)| - 1 else |Split(path)|
  }

  /** A root: `/`, or a non-empty path without a trailing separator (`//` excluded). */
  predicate NormalRoot(path: string)
  {
    path == [Sep] || (path != [] && path[|path| - 1] != Sep)
  }

  /** Components of a relative path: non-empty and free of separators. */
  predicate ProperParts(parts: seq<string>)
  {
    |parts| >= 1 && forall k :: 0 <= k < |parts| ==> parts[k] != [] && Sep !in parts[k]
  }

  lemma {:induction false} SplitPlain(s: string)
    requires Sep !in s
    ensures Split(s) == [s]
  {
    if s != [] {
      SplitPlain(s[1..]);
      assert s == [s[0]] + s[1..];
    }
  }

  /** Splitting at a separator splits each side on its own. */
  lemma {:induction false} SplitAtSep(a: string, b: string)
    ensures Split(a + [Sep] + b) == Split(a) + Split(b)
  {
    if a == [] {
      assert a + [Sep] + b == [Sep] + b;
      assert ([Sep] + b)[1..] == b;
    } else {
      assert (a + [Sep] + b)[0] == a[0];
      assert (a + [Sep] + b)[1..] == a[1..] + [Sep] + b;
      SplitAtSep(a[1..], b);
    }
  }

  /** Splitting undoes joining with `/`. */
  lemma {:induction false} SplitJoinSlash(parts: seq<string>)
    requires |parts| >= 1
    requires forall k :: 0 <= k < |parts| ==> Sep !in parts[k]
    ensures Split(JoinSlash(parts)) == parts
  {
    if |parts| == 1 {
      SplitPlain(parts[0]);
    } else {
      SplitJoinSlash(parts[1..]);
      SplitAtSep(parts[0], JoinSlash(parts[1..]));
      SplitPlain(parts[0]);
      assert parts == [parts[0]] + parts[1..];
    }
  }

  /** Joining with `/` undoes splitting. */
  lemma {:induction false} JoinSlashSplit(s: string)
    ensures JoinSlash(Split(s)) == s
  {
    if s != [] {
      JoinSlashSplit(s[1..]);
      var rest := Split(s[1..]);
      if s[0] == Sep {
        assert ([""] + rest)[1..] == rest;
      } else if |rest| > 1 {
        var parts := [[s[0]] + rest[0]] + rest[1..];
        assert parts[1..] == rest[1..];
        assert JoinSlash(rest) == rest[0] + [Sep] + JoinSlash(rest[1..]);
      }
      assert s == [s[0]] + s[1..];
    }
  }

  lemma {:induction false} JoinSlashSnoc(parts: seq<string>)
    requires |parts| >= 2
    ensures JoinSlash(parts) == JoinSlash(parts[..|parts| - 1]) + [Sep] + parts[|parts| - 1]
  {
    if |parts| > 2 {
      JoinSlashSnoc(parts[1..]);
      assert parts[1..][..|parts| - 2] == parts[..|parts| - 1][1..];
    }
  }

  /** On proper components `os.path.join(*parts)` is `'/'.join(parts)`. */
  lemma {:induction false} JoinAllProper(parts: seq<string>)
    requires ProperParts(parts)
    ensures JoinAll(parts) == JoinSlash(parts)
    ensures JoinAll(parts) != [] && JoinAll(parts)[0] != Sep
    ensures JoinAll(parts)[|JoinAll(parts)| - 1] != Sep
  {
    if |parts| > 1 {
      var init := parts[..|parts| - 1];
      var last := parts[|parts| - 1];
      assert ProperParts(init) by {
        assert forall k :: 0 <= k < |init| ==> init[k] == parts[k];
      }
      JoinAllProper(init);
      JoinSlashSnoc(parts);
      assert last != [] && last[0] != Sep;
      assert last[|last| - 1] in last;
    } else {
      assert parts[0][|parts[0]| - 1] in parts[0];
    }
  }

  /**
    A name joined under a normalised root gets back exactly its relative part:
    the file `path/r` is recorded as `r`, for every depth of `r`.
  */
  lemma RelPathUnderRoot(path: string, parts: seq<string>)
    requires NormalRoot(path)
    requires ProperParts(parts)
    ensures RelPath(PathJoin(path, JoinSlash(parts)), RootDepth(path)) == Some(JoinSlash(parts))
  {
    var r := JoinSlash(parts);
    JoinAllProper(parts);
    if path == [Sep] {
      assert PathJoin(path, r) == [Sep] + r;
      SplitOfRoot();
      SplitUnderRoot(parts);
      assert Split(PathJoin(path, r))[1..] == parts;
      RelPathOfSplit(PathJoin(path, r), 1, parts);
    } else {
      assert PathJoin(path, r) == path + [Sep] + r;
      SplitAtSep(path, r);
      SplitJoinSlash(parts);
      assert Split(PathJoin(path, r))[|Split(path)|..] == parts;
      RelPathOfSplit(PathJoin(path, r), |Split(path)|, parts);
    }
  }

  /** Below a normalised root other than `/`, the depth as written is the intended one. */
  lemma RootDepthAgrees(path: string)
    requires NormalRoot(path) && path != [Sep]
    ensures RootDepth(path) == RootDepthAsWritten(path)
  {
  }

  /**
    `full` is `path/r` for a relative path `r` of non-empty components; meant
    for a root `path` that does not end with a separator.
  */
  predicate Below(path: string, full: string)
  {
    |full| > |path| + 1 && full[..|path| + 1] == path + [Sep] && ProperParts(Split(full[|path| + 1..]))
  }

  /** As written, a scan of a normalised root other than `/` records `path/r` as `r`. */
  lemma RelPathBelow(path: string, full: string)
    requires NormalRoot(path) && path != [Sep]
    requires Below(path, full)
    ensures RelPath(full, RootDepthAsWritten(path)) == Some(full[|path| + 1..])
  {
    var r := full[|path| + 1..];
    assert full == path + [Sep] + r;
    SplitAtSep(path, r);
    assert Split(full)[|Split(path)|..] == Split(r);
    RelPathOfSplit(full, |Split(path)|, Split(r));
    JoinSlashSplit(r);
  }

  /**
    As written, a scan of `/` drops one component too many: the file
    `/c1/.../cn` is recorded as `c2/.../cn`, and a file directly in `/` has no
    name left at all (there `os.path.join()` raises).
  */
  lemma RootSlashAsWritten(parts: seq<string>)
    requires ProperParts(parts)
    ensures RootDepthAsWritten([Sep]) == 2
    ensures |parts| == 1 ==> RelPath(PathJoin([Sep], JoinSlash(parts)), RootDepthAsWritten([Sep])) == None
    ensures |parts| >= 2 ==>
      RelPath(PathJoin([Sep], JoinSlash(parts)), RootDepthAsWritten([Sep])) == Some(JoinSlash(parts[1..]))
  {
    SplitOfRoot();
    var full := PathJoin([Sep], JoinSlash(parts));
    assert full == [Sep] + JoinSlash(parts) by {
      JoinAllProper(parts);
    }
    SplitUnderRoot(parts);
    if |parts| >= 2 {
      DropRootAndOne(full, parts);
    }
  }

  lemma DropRootAndOne(full: string, parts: seq<string>)
    requires ProperParts(parts) && |parts| >= 2
    requires Split(full) == [""] + parts
    ensures RelPath(full, 2) == Some(JoinSlash(parts[1..]))
  {
    ProperTail(parts);
    assert Split(full)[2..] == parts[1..];
    RelPathOfSplit(full, 2, parts[1..]);
  }

  lemma ProperTail(parts: seq<string>)
    requires ProperParts(parts) && |parts| >= 2
    ensures ProperParts(parts[1..])
  {
    assert forall k :: 0 <= k < |parts| - 1 ==> parts[1..][k] == parts[k + 1];
  }

  /** Dropping `depth` components that leave proper ones behind yields those, joined with `/`. */
  lemma RelPathOfSplit(full: string, depth: nat, parts: seq<string>)
    requires ProperParts(parts)
    requires depth <= |Split(full)| && Split(full)[depth..] == parts
    ensures RelPath(full, depth) == Some(JoinSlash(parts))
  {
    JoinAllProper(parts);
  }

  /** The concrete case: `/usr/bin/ls` becomes `bin/ls`, `/a` has no name. */
  lemma RootSlashExample()
    ensures RelPath("/usr/bin/ls", RootDepthAsWritten("/")) == Some("bin/ls")
    ensures RelPath("/a", RootDepthAsWritten("/")) == None
  {
    var usr: seq<string> := ["usr", "bin", "ls"];
    RootSlashAsWritten(usr);
    assert JoinSlash(usr) == "usr/bin/ls" by {
      assert JoinSlash(usr[1..]) == "bin/ls" by {
        assert usr[1..][1..] == ["ls"];
      }
    }
    assert PathJoin("/", "usr/bin/ls") == "/usr/bin/ls";
    assert usr[1..] == ["bin", "ls"];
    assert JoinSlash(["bin", "ls"]) == "bin/ls" by {
      assert ["bin", "ls"][1..] == ["ls"];
    }
    RootSlashAsWritten(["a"]);
    assert PathJoin("/", "a") == "/a";
  }

  lemma SplitOfRoot()
    ensures Split("/") == ["", ""]
  {
    assert "/" == [] + [Sep] + [];
    SplitAtSep([], []);
  }

  lemma SplitUnderRoot(parts: seq<string>)
    requires |parts| >= 1
    requires forall k :: 0 <= k < |parts| ==> Sep !in parts[k]
    ensures Split([Sep] + JoinSlash(parts)) == [""] + parts
  {
    var j := JoinSlash(parts);
    assert [Sep] + j == [] + [Sep] + j;
    SplitAtSep([], j);
    assert Split([]) == [""];
    SplitJoinSlash(parts);
  }

  /** With the corrected depth, the same files under `/` keep their full relative names. */
  lemma RootSlashCorrected()
    ensures RootDepth("/") == 1
    ensures RelPath("/usr/bin/ls", RootDepth("/")) == Some("usr/bin/ls")
    ensures RelPath("/a", RootDepth("/")) == Some("a")
  {
    SplitOfRoot();
    RelPathUnderRoot("/", ["usr", "bin", "ls"]);
    assert JoinSlash(["usr", "bin", "ls"]) == "usr/bin/ls";
    assert PathJoin("/", "usr/bin/ls") == "/usr/bin/ls";
    RelPathUnderRoot("/", ["a"]);
    assert PathJoin("/", "a") == "/a";
  }
}
