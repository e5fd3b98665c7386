/**
  The scanner: `traverse` and the sort of its result. The directory walk is
  input data — for every directory that `os.walk` visits, its path and the
  names in it, each with what `os.path.islink`, `os.path.isfile`,
  `os.readlink` and the content digest give for it.
*/
module Traverser {
  import opened Wrappers
  import opened Snapshots
  import Paths

  /** One name in a directory's file list, with what the filesystem reports for it. */
  datatype Leaf = Leaf(name: string, isLink: bool, isFile: bool, linkTarget: string, digest: string)

  /** One step of the walk: a directory and the non-directory names in it. */
  datatype WalkDir = WalkDir(root: string, files: seq<Leaf>)

  /** A leaf together with the directory it was found in. */
  datatype Placed = Placed(root: string, leaf: Leaf)

  /**
    The entry recorded for `leaf` under relative path `rel`: a symbolic link is
    recorded by its target even when it leads to a regular file, a regular
    file by its digest, anything else (a device, a socket, a fifo) by "None".
  */
  function Classify(rel: string, leaf: Leaf): (e: Entry)
    ensures e.path == rel
    ensures e.kind == LinkKind <==> leaf.isLink
    ensures e.kind == FileKind <==> !leaf.isLink && leaf.isFile
    ensures e.kind == OtherKind <==> !leaf.isLink && !leaf.isFile
    ensures e.kind == LinkKind ==> e.data == leaf.linkTarget
    ensures e.kind == FileKind ==> e.data == leaf.digest
    ensures e.kind == OtherKind ==> e.data == NoneText
  {
    if leaf.isLink then Entry(LinkKind, leaf.linkTarget, rel)
    else if leaf.isFile then Entry(FileKind, leaf.digest, rel)
    else Entry(OtherKind, NoneText, rel)
  }

  /** The path `os.path.join(root, fn)` of a placed leaf. */
  function FullPath(p: Placed): string
  {
    Paths.PathJoin(p.root, p.leaf.name)
  }

  function LeafRel(depth: nat, p: Placed): Option<string>
  {
    Paths.RelPath(FullPath(p), depth)
  }

  /** A leaf that has a relative name and is not matched by the ignore list. */
  predicate Kept(depth: nat, ignore: seq<string>, p: Placed)
  {
    LeafRel(depth, p).Some? && !IsIgnored(LeafRel(depth, p).value, ignore)
  }

  /** The leaves of the walk, in the order the two loops of `traverse` visit them. */
  function Flatten(walk: seq<WalkDir>): seq<Placed>
  {
    if walk == [] then [] else Flatten(walk[..|walk| - 1]) + Locate(walk[|walk| - 1])
  }

  function Locate(d: WalkDir): (ps: seq<Placed>)
    ensures |ps| == |d.files|
    ensures forall j :: 0 <= j < |d.files| ==> ps[j] == Placed(d.root, d.files[j])
  {
    seq(|d.files|, j requires 0 <= j < |d.files| => Placed(d.root, d.files[j]))
  }

  /** The effect of one leaf on the scan so far; a missing relative name aborts it. */
  function ScanLeaf(acc: Result<seq<Entry>, string>, depth: nat, ignore: seq<string>, p: Placed): Result<seq<Entry>, string>
  {
    if acc.Err? then acc
    else match LeafRel(depth, p)
      case None => Err(FullPath(p))
      case Some(rel) => if IsIgnored(rel, ignore) then acc else Ok(acc.value + [Classify(rel, p.leaf)])
  }

  /** The outcome of scanning the leaves `ps` in order: the entries appended, or the path that had no name. */
  function ScanLeaves(depth: nat, ignore: seq<string>, ps: seq<Placed>): Result<seq<Entry>, string>
  {
    if ps == [] then Ok([])
    else ScanLeaf(ScanLeaves(depth, ignore, ps[..|ps| - 1]), depth, ignore, ps[|ps| - 1])
  }

  /**
    The outcome of `traverse` on the walk `walk` of the root `path`, which drops
    as many leading components as `path` splits into.
  */
  function TraverseSpec(path: string, walk: seq<WalkDir>, ignore: seq<string>): Result<seq<Entry>, string>
  {
    ScanLeaves(Paths.RootDepthAsWritten(path), ignore, Flatten(walk))
  }

  /**
    `traverse`: for each directory of the walk and each name in it, compute the
    relative name, skip it when ignored, else classify it and append the entry.
  */
  method Traverse(path: string, walk: seq<WalkDir>, ignore: seq<string>) returns (r: Result<seq<Entry>, string>)
    ensures r == TraverseSpec(path, walk, ignore)
  {
    var depth := Paths.RootDepthAsWritten(path);
    var result: seq<Entry> := [];
    var i := 0;
    while i < |walk|
      invariant 0 <= i <= |walk|
      invariant ScanLeaves(depth, ignore, Flatten(walk[..i])) == Ok(result)
    {
      FlattenSnoc(walk, i);
      var step := ScanDir(depth, ignore, walk[i], Flatten(walk[..i]), result);
      if step.Err? {
        ErrorAbortsWalk(depth, ignore, walk, i + 1);
        return step;
      }
      result := step.value;
      i := i + 1;
    }
    assert walk[..i] == walk;
    r := Ok(result);
  }

  /**
    The inner loop of `traverse` over the names of one directory, continuing
    the scan of the leaves `before`, which produced `result`.
  */
  method ScanDir(depth: nat, ignore: seq<string>, dir: WalkDir, ghost before: seq<Placed>, result: seq<Entry>)
    returns (r: Result<seq<Entry>, string>)
    requires ScanLeaves(depth, ignore, before) == Ok(result)
    ensures r == ScanLeaves(depth, ignore, before + Locate(dir))
  {
    var acc := result;
    var j := 0;
    LocateEmpty(dir.root, dir.files);
    assert before + Locate(WalkDir(dir.root, dir.files[..0])) == before;
    while j < |dir.files|
      invariant 0 <= j <= |dir.files|
      invariant ScanLeaves(depth, ignore, before + Locate(WalkDir(dir.root, dir.files[..j]))) == Ok(acc)
    {
      var leaf := dir.files[j];
      var p := Placed(dir.root, leaf);
      var fullfn := FullPath(p);
      var relfn := LeafRel(depth, p);
      DirStep(depth, ignore, before, dir, j, acc);
      if relfn.None? {
        ErrorAbortsDir(depth, ignore, before, dir, j + 1);
        return Err(fullfn);
      }
      if !IsIgnored(relfn.value, ignore) {
        acc := acc + [Classify(relfn.value, leaf)];
      }
      j := j + 1;
    }
    assert dir.files[..j] == dir.files;
    r := Ok(acc);
  }

  lemma LocateEmpty(root: string, files: seq<Leaf>)
    ensures Locate(WalkDir(root, files[..0])) == []
  {
  }

  lemma LocateSnoc(root: string, files: seq<Leaf>, j: nat)
    requires j < |files|
    ensures Locate(WalkDir(root, files[..j + 1])) == Locate(WalkDir(root, files[..j])) + [Placed(root, files[j])]
  {
  }

  lemma FlattenSnoc(walk: seq<WalkDir>, i: nat)
    requires i < |walk|
    ensures Flatten(walk[..i + 1]) == Flatten(walk[..i]) + Locate(walk[i])
  {
    assert walk[..i + 1][..i] == walk[..i];
  }

  /** One name of the inner loop: the scan of the names up to and including the `j`-th. */
  lemma DirStep(depth: nat, ignore: seq<string>, before: seq<Placed>, dir: WalkDir, j: nat, acc: seq<Entry>)
    requires j < |dir.files|
    requires ScanLeaves(depth, ignore, before + Locate(WalkDir(dir.root, dir.files[..j]))) == Ok(acc)
    ensures before + Locate(WalkDir(dir.root, dir.files[..j])) + [Placed(dir.root, dir.files[j])] ==
      before + Locate(WalkDir(dir.root, dir.files[..j + 1]))
    ensures ScanLeaves(depth, ignore, before + Locate(WalkDir(dir.root, dir.files[..j + 1]))) ==
      ScanLeaf(Ok(acc), depth, ignore, Placed(dir.root, dir.files[j]))
  {
    var visited := before + Locate(WalkDir(dir.root, dir.files[..j]));
    var p := Placed(dir.root, dir.files[j]);
    LocateSnoc(dir.root, dir.files, j);
    assert visited + [p] == before + Locate(WalkDir(dir.root, dir.files[..j + 1]));
    ScanStep(depth, ignore, visited, p);
  }

  lemma ScanStep(depth: nat, ignore: seq<string>, ps: seq<Placed>, p: Placed)
    ensures ScanLeaves(depth, ignore, ps + [p]) == ScanLeaf(ScanLeaves(depth, ignore, ps), depth, ignore, p)
  {
    assert (ps + [p])[..|ps|] == ps;
  }

  /** The `if args.scan:` block: scan, sort by path, and label the result with the ignore list that was applied. */
  method Scan(path: string, walk: seq<WalkDir>, ignore: seq<string>, description: Option<string>)
    returns (r: Result<Snapshot, string>)
    ensures TraverseSpec(path, walk, ignore).Err? ==> r == Err(TraverseSpec(path, walk, ignore).error)
    ensures TraverseSpec(path, walk, ignore).Ok? ==>
      r.Ok? && r.value.description == description && r.value.ignore == ignore
    ensures r.Ok? ==> SortedByPath(r.value.files)
    ensures r.Ok? ==> multiset(r.value.files) == multiset(TraverseSpec(path, walk, ignore).value)
  {
    var trdata := Traverse(path, walk, ignore);
    if trdata.Err? {
      return Err(trdata.error);
    }
    var files := SortByPath(trdata.value);
    r := Ok(Snapshot(description, files, ignore));
  }

  // ----- lemmas about the walk and the scan -----

  lemma {:induction false} FlattenAppend(a: seq<WalkDir>, b: seq<WalkDir>)
    ensures Flatten(a + b) == Flatten(a) + Flatten(b)
    decreases |b|
  {
    if b == [] {
      assert a + b == a;
    } else {
      var init := b[..|b| - 1];
      var last := b[|b| - 1];
      assert (a + b)[..|a + b| - 1] == a + init;
      assert (a + b)[|a + b| - 1] == last;
      assert Flatten(a + b) == Flatten(a + init) + Locate(last);
      FlattenAppend(a, init);
      assert Flatten(b) == Flatten(init) + Locate(last);
    }
  }

  /** Once a prefix of the leaves has aborted the scan, the whole scan aborts with the same path. */
  lemma {:induction false} ErrorPersists(depth: nat, ignore: seq<string>, ps: seq<Placed>, k: nat)
    requires k <= |ps| && ScanLeaves(depth, ignore, ps[..k]).Err?
    ensures ScanLeaves(depth, ignore, ps) == ScanLeaves(depth, ignore, ps[..k])
    decreases |ps| - k
  {
    if k < |ps| {
      assert ps[..k + 1][..k] == ps[..k];
      ErrorPersists(depth, ignore, ps, k + 1);
    } else {
      assert ps[..k] == ps;
    }
  }

  /** An error in the first `j` names of `dir` aborts the scan of the whole directory. */
  lemma ErrorAbortsDir(depth: nat, ignore: seq<string>, before: seq<Placed>, dir: WalkDir, j: nat)
    requires j <= |dir.files|
    requires ScanLeaves(depth, ignore, before + Locate(WalkDir(dir.root, dir.files[..j]))).Err?
    ensures ScanLeaves(depth, ignore, before + Locate(dir)) ==
      ScanLeaves(depth, ignore, before + Locate(WalkDir(dir.root, dir.files[..j])))
  {
    var pre := before + Locate(WalkDir(dir.root, dir.files[..j]));
    var all := before + Locate(dir);
    assert all[..|pre|] == pre;
    ErrorPersists(depth, ignore, all, |pre|);
  }

  /** An error in the first `i` directories aborts the scan of the whole walk. */
  lemma ErrorAbortsWalk(depth: nat, ignore: seq<string>, walk: seq<WalkDir>, i: nat)
    requires i <= |walk|
    requires ScanLeaves(depth, ignore, Flatten(walk[..i])).Err?
    ensures ScanLeaves(depth, ignore, Flatten(walk)) == ScanLeaves(depth, ignore, Flatten(walk[..i]))
  {
    assert walk == walk[..i] + walk[i..];
    FlattenAppend(walk[..i], walk[i..]);
    assert Flatten(walk)[..|Flatten(walk[..i])|] == Flatten(walk[..i]);
    ErrorPersists(depth, ignore, Flatten(walk), |Flatten(walk[..i])|);
  }

  /** Every leaf of the walk is visited, and only those. */
  lemma {:induction false} FlattenMembers(walk: seq<WalkDir>)
    ensures forall i, j :: 0 <= i < |walk| && 0 <= j < |walk[i].files| ==>
      Placed(walk[i].root, walk[i].files[j]) in Flatten(walk)
    ensures forall p :: p in Flatten(walk) ==> exists i :: 0 <= i < |walk| && p.root == walk[i].root && p.leaf in walk[i].files
    decreases |walk|
  {
    if walk != [] {
      var init := walk[..|walk| - 1];
      FlattenMembers(init);
      assert forall i :: 0 <= i < |init| ==> init[i] == walk[i];
    }
  }

  /** The number of leaves the ignore list keeps. */
  function KeptCount(depth: nat, ignore: seq<string>, ps: seq<Placed>): nat
  {
    if ps == [] then 0
    else KeptCount(depth, ignore, ps[..|ps| - 1]) + (if Kept(depth, ignore, ps[|ps| - 1]) then 1 else 0)
  }

  /** Every one of the first `k` leaves has a relative name. */
  predicate NamedUpTo(depth: nat, ps: seq<Placed>, k: nat)
    requires k <= |ps|
  {
    forall m :: 0 <= m < k ==> LeafRel(depth, ps[m]).Some?
  }

  lemma ScanLeafOk(acc: Result<seq<Entry>, string>, depth: nat, ignore: seq<string>, p: Placed)
    ensures ScanLeaf(acc, depth, ignore, p).Ok? <==> acc.Ok? && LeafRel(depth, p).Some?
  {
  }

  /** The scan fails exactly when some leaf has no relative name. */
  lemma {:induction false} ScanFailsIffNameless(depth: nat, ignore: seq<string>, ps: seq<Placed>)
    ensures ScanLeaves(depth, ignore, ps).Ok? <==> NamedUpTo(depth, ps, |ps|)
  {
    if ps != [] {
      var n := |ps| - 1;
      var init := ps[..n];
      ScanFailsIffNameless(depth, ignore, init);
      ScanLeafOk(ScanLeaves(depth, ignore, init), depth, ignore, ps[n]);
      assert NamedUpTo(depth, ps, |ps|) <==> NamedUpTo(depth, init, n) && LeafRel(depth, ps[n]).Some? by {
        assert forall k :: 0 <= k < n ==> init[k] == ps[k];
      }
    }
  }

  /** A failed scan reports the full path of the first leaf that has no relative name. */
  lemma {:induction false} ScanReportsFirstNameless(depth: nat, ignore: seq<string>, ps: seq<Placed>)
    requires ScanLeaves(depth, ignore, ps).Err?
    ensures exists k :: (0 <= k < |ps| && LeafRel(depth, ps[k]).None? && NamedUpTo(depth, ps, k) &&
      ScanLeaves(depth, ignore, ps).error == FullPath(ps[k]))
  {
    var n := |ps| - 1;
    var init := ps[..n];
    var before := ScanLeaves(depth, ignore, init);
    if before.Err? {
      ScanReportsFirstNameless(depth, ignore, init);
      var k :| 0 <= k < |init| && LeafRel(depth, init[k]).None? && NamedUpTo(depth, init, k) &&
        before.error == FullPath(init[k]);
      assert forall m :: 0 <= m <= k ==> init[m] == ps[m];
      assert NamedUpTo(depth, ps, k);
      assert LeafRel(depth, ps[k]).None? && ScanLeaves(depth, ignore, ps).error == FullPath(ps[k]);
    } else {
      ScanFailsIffNameless(depth, ignore, init);
      assert forall m :: 0 <= m < n ==> init[m] == ps[m];
      assert NamedUpTo(depth, ps, n);
      assert LeafRel(depth, ps[n]).None? && ScanLeaves(depth, ignore, ps).error == FullPath(ps[n]);
    }
  }

  /** A successful scan records no entry whose path the ignore list matches. */
  lemma {:induction false} ScanSkipsIgnored(depth: nat, ignore: seq<string>, ps: seq<Placed>)
    requires ScanLeaves(depth, ignore, ps).Ok?
    ensures forall m :: 0 <= m < |ScanLeaves(depth, ignore, ps).value| ==>
      !IsIgnored(ScanLeaves(depth, ignore, ps).value[m].path, ignore)
  {
    if ps != [] {
      var init := ps[..|ps| - 1];
      ScanSkipsIgnored(depth, ignore, init);
    }
  }

  /** A successful scan records one entry per kept leaf. */
  lemma {:induction false} ScanCountsKept(depth: nat, ignore: seq<string>, ps: seq<Placed>)
    requires ScanLeaves(depth, ignore, ps).Ok?
    ensures |ScanLeaves(depth, ignore, ps).value| == KeptCount(depth, ignore, ps)
  {
    if ps != [] {
      ScanCountsKept(depth, ignore, ps[..|ps| - 1]);
    }
  }

  /** A successful scan found a relative name for every leaf and records every kept one. */
  lemma {:induction false} ScanRecordsEveryKept(depth: nat, ignore: seq<string>, ps: seq<Placed>)
    requires ScanLeaves(depth, ignore, ps).Ok?
    ensures forall k :: 0 <= k < |ps| ==> LeafRel(depth, ps[k]).Some?
    ensures forall k :: 0 <= k < |ps| && Kept(depth, ignore, ps[k]) ==>
      Classify(LeafRel(depth, ps[k]).value, ps[k].leaf) in ScanLeaves(depth, ignore, ps).value
  {
    if ps != [] {
      var n := |ps| - 1;
      var init := ps[..n];
      assert ScanLeaves(depth, ignore, init).Ok?;
      ScanRecordsEveryKept(depth, ignore, init);
      var before := ScanLeaves(depth, ignore, init).value;
      var after := ScanLeaves(depth, ignore, ps).value;
      assert LeafRel(depth, ps[n]).Some?;
      assert after == before || after == before + [Classify(LeafRel(depth, ps[n]).value, ps[n].leaf)];
      forall k | 0 <= k < |ps|
        ensures LeafRel(depth, ps[k]).Some?
        ensures Kept(depth, ignore, ps[k]) ==> Classify(LeafRel(depth, ps[k]).value, ps[k].leaf) in after
      {
        if k < n {
          assert init[k] == ps[k];
        }
      }
    }
  }

  /** Every entry of a successful scan is the classification of a kept leaf. */
  lemma {:induction false} ScanRecordsOnlyKept(depth: nat, ignore: seq<string>, ps: seq<Placed>)
    requires ScanLeaves(depth, ignore, ps).Ok?
    ensures forall m :: 0 <= m < |ScanLeaves(depth, ignore, ps).value| ==>
      exists k :: 0 <= k < |ps| && Kept(depth, ignore, ps[k]) &&
        ScanLeaves(depth, ignore, ps).value[m] == Classify(LeafRel(depth, ps[k]).value, ps[k].leaf)
  {
    if ps != [] {
      var init := ps[..|ps| - 1];
      var n := |ps| - 1;
      ScanRecordsOnlyKept(depth, ignore, init);
      var before := ScanLeaves(depth, ignore, init).value;
      var after := ScanLeaves(depth, ignore, ps).value;
      ScanStep(depth, ignore, init, ps[n]);
      assert ps == init + [ps[n]];
      assert after == before || (Kept(depth, ignore, ps[n]) &&
        after == before + [Classify(LeafRel(depth, ps[n]).value, ps[n].leaf)]);
      forall m | 0 <= m < |after|
        ensures exists k :: (0 <= k < |ps| && Kept(depth, ignore, ps[k]) &&
          after[m] == Classify(LeafRel(depth, ps[k]).value, ps[k].leaf))
      {
        if m < |before| {
          assert after[m] == before[m];
          var k :| 0 <= k < |init| && Kept(depth, ignore, init[k]) &&
            before[m] == Classify(LeafRel(depth, init[k]).value, init[k].leaf);
          assert init[k] == ps[k];
        } else {
          assert Kept(depth, ignore, ps[n]);
          assert after[m] == Classify(LeafRel(depth, ps[n]).value, ps[n].leaf);
        }
      }
    }
  }

  /** No two leaves of `ps` that have a relative name share it. */
  predicate DistinctRels(depth: nat, ps: seq<Placed>)
  {
    forall i, j :: 0 <= i < j < |ps| && LeafRel(depth, ps[i]).Some? && LeafRel(depth, ps[j]).Some? ==>
      LeafRel(depth, ps[i]).value != LeafRel(depth, ps[j]).value
  }

  /** Leaves with distinct relative names scan to entries with distinct paths. */
  lemma {:induction false} ScanKeepsPathsUnique(depth: nat, ignore: seq<string>, ps: seq<Placed>)
    requires DistinctRels(depth, ps)
    requires ScanLeaves(depth, ignore, ps).Ok?
    ensures UniquePaths(ScanLeaves(depth, ignore, ps).value)
  {
    if ps != [] {
      var n := |ps| - 1;
      var init := ps[..n];
      assert forall k :: 0 <= k < n ==> init[k] == ps[k];
      assert DistinctRels(depth, init);
      ScanKeepsPathsUnique(depth, ignore, init);
      ScanRecordsOnlyKept(depth, ignore, init);
      ScanStep(depth, ignore, init, ps[n]);
      assert ps == init + [ps[n]];
      var before := ScanLeaves(depth, ignore, init).value;
      var after := ScanLeaves(depth, ignore, ps).value;
      if after != before {
        assert after == before + [Classify(LeafRel(depth, ps[n]).value, ps[n].leaf)];
        forall i, j | 0 <= i < j < |after| ensures after[i].path != after[j].path {
          if j < |before| {
            assert after[i] == before[i] && after[j] == before[j];
          } else {
            var k :| 0 <= k < |init| && Kept(depth, ignore, init[k]) &&
              before[i] == Classify(LeafRel(depth, init[k]).value, init[k].leaf);
            assert after[i].path == LeafRel(depth, ps[k]).value;
            assert after[j].path == LeafRel(depth, ps[n]).value;
          }
        }
      }
    }
  }

  /**
    Under a normalised root other than `/`, a walk that lists only files below
    the root, each once, scans without error to entries with distinct paths.
  */
  lemma ScanHasUniquePaths(path: string, walk: seq<WalkDir>, ignore: seq<string>)
    requires Paths.NormalRoot(path) && path != [Paths.Sep]
    requires forall k :: 0 <= k < |Flatten(walk)| ==> Paths.Below(path, FullPath(Flatten(walk)[k]))
    requires forall i, j :: 0 <= i < j < |Flatten(walk)| ==> FullPath(Flatten(walk)[i]) != FullPath(Flatten(walk)[j])
    ensures TraverseSpec(path, walk, ignore).Ok?
    ensures UniquePaths(TraverseSpec(path, walk, ignore).value)
  {
    var depth := Paths.RootDepthAsWritten(path);
    var ps := Flatten(walk);
    BelowRootNamed(path, ps);
    ScanFailsIffNameless(depth, ignore, ps);
    BelowRootDistinct(path, ps);
    ScanKeepsPathsUnique(depth, ignore, ps);
  }

  /** Every leaf below a normalised root other than `/` is named by what follows the root. */
  lemma BelowRootNamed(path: string, ps: seq<Placed>)
    requires Paths.NormalRoot(path) && path != [Paths.Sep]
    requires forall k :: 0 <= k < |ps| ==> Paths.Below(path, FullPath(ps[k]))
    ensures NamedUpTo(Paths.RootDepthAsWritten(path), ps, |ps|)
    ensures forall k :: 0 <= k < |ps| ==> (Paths.Below(path, FullPath(ps[k])) &&
      LeafRel(Paths.RootDepthAsWritten(path), ps[k]) == Some(FullPath(ps[k])[|path| + 1..]))
  {
    forall k | 0 <= k < |ps|
      ensures Paths.Below(path, FullPath(ps[k])) &&
        LeafRel(Paths.RootDepthAsWritten(path), ps[k]) == Some(FullPath(ps[k])[|path| + 1..])
    {
      Paths.RelPathBelow(path, FullPath(ps[k]));
    }
  }

  /** Distinct full paths below a normalised root other than `/` have distinct relative names. */
  lemma BelowRootDistinct(path: string, ps: seq<Placed>)
    requires Paths.NormalRoot(path) && path != [Paths.Sep]
    requires forall k :: 0 <= k < |ps| ==> Paths.Below(path, FullPath(ps[k]))
    requires forall i, j :: 0 <= i < j < |ps| ==> FullPath(ps[i]) != FullPath(ps[j])
    ensures DistinctRels(Paths.RootDepthAsWritten(path), ps)
  {
    var depth := Paths.RootDepthAsWritten(path);
    BelowRootNamed(path, ps);
    forall i, j | 0 <= i < j < |ps| && LeafRel(depth, ps[i]).Some? && LeafRel(depth, ps[j]).Some?
      ensures LeafRel(depth, ps[i]).value != LeafRel(depth, ps[j]).value
    {
      SameRootDistinctRest(path + [Paths.Sep], FullPath(ps[i]), FullPath(ps[j]));
    }
  }

  lemma SameRootDistinctRest(prefix: string, a: string, b: string)
    requires |a| >= |prefix| && |b| >= |prefix|
    requires a[..|prefix|] == prefix && b[..|prefix|] == prefix
    requires a != b
    ensures a[|prefix|..] != b[|prefix|..]
  {
    assert a == prefix + a[|prefix|..];
    assert b == prefix + b[|prefix|..];
  }

  /** The files of the snapshot `scan` builds from such a walk have distinct paths. */
  lemma ScannedSnapshotHasUniquePaths(path: string, walk: seq<WalkDir>, ignore: seq<string>, snap: Snapshot)
    requires Paths.NormalRoot(path) && path != [Paths.Sep]
    requires forall k :: 0 <= k < |Flatten(walk)| ==> Paths.Below(path, FullPath(Flatten(walk)[k]))
    requires forall i, j :: 0 <= i < j < |Flatten(walk)| ==> FullPath(Flatten(walk)[i]) != FullPath(Flatten(walk)[j])
    requires TraverseSpec(path, walk, ignore).Ok?
    requires multiset(snap.files) == multiset(TraverseSpec(path, walk, ignore).value)
    ensures UniquePaths(snap.files)
  {
    ScanHasUniquePaths(path, walk, ignore);
    PermutationKeepsPathsUnique(TraverseSpec(path, walk, ignore).value, snap.files);
  }

  /**
    As written, a scan of `/` aborts at a file directly in `/`: with two
    components dropped, its path has no name left.
  */
  lemma RootScanAbortsAtTopFile(leaf: Leaf, ignore: seq<string>)
    requires leaf.name != [] && Paths.Sep !in leaf.name
    ensures TraverseSpec([Paths.Sep], [WalkDir([Paths.Sep], [leaf])], ignore) == Err([Paths.Sep] + leaf.name)
  {
    var walk := [WalkDir([Paths.Sep], [leaf])];
    var p := Placed([Paths.Sep], leaf);
    assert walk[..0] == [];
    assert Flatten(walk) == [p];
    assert Paths.JoinSlash([leaf.name]) == leaf.name;
    Paths.RootSlashAsWritten([leaf.name]);
    assert FullPath(p) == [Paths.Sep] + leaf.name;
    var depth := Paths.RootDepthAsWritten([Paths.Sep]);
    assert LeafRel(depth, p) == None;
    ScanStep(depth, ignore, [], p);
    assert [] + [p] == [p];
    assert ScanLeaves(depth, ignore, [p]) == ScanLeaf(Ok([]), depth, ignore, p);
  }

  /**
    The scanned snapshot's files, in terms of the walk: no file is matched by
    the ignore list, every kept leaf of every directory is recorded by its
    classification, and every recorded file is one.
  */
  lemma ScannedFiles(path: string, walk: seq<WalkDir>, ignore: seq<string>, snap: Snapshot)
    requires TraverseSpec(path, walk, ignore).Ok?
    requires multiset(snap.files) == multiset(TraverseSpec(path, walk, ignore).value)
    ensures forall e :: e in snap.files ==> !IsIgnored(e.path, ignore)
    ensures |snap.files| == KeptCount(Paths.RootDepthAsWritten(path), ignore, Flatten(walk))
    ensures forall i, j ::
      (0 <= i < |walk| && 0 <= j < |walk[i].files| &&
       Kept(Paths.RootDepthAsWritten(path), ignore, Placed(walk[i].root, walk[i].files[j]))) ==>
        Classify(LeafRel(Paths.RootDepthAsWritten(path), Placed(walk[i].root, walk[i].files[j])).value, walk[i].files[j]) in snap.files
    ensures forall e :: e in snap.files ==>
      exists p :: p in Flatten(walk) && Kept(Paths.RootDepthAsWritten(path), ignore, p) &&
        e == Classify(LeafRel(Paths.RootDepthAsWritten(path), p).value, p.leaf)
  {
    var depth := Paths.RootDepthAsWritten(path);
    var ps := Flatten(walk);
    var es := TraverseSpec(path, walk, ignore).value;
    ScanSkipsIgnored(depth, ignore, ps);
    ScanCountsKept(depth, ignore, ps);
    ScanRecordsEveryKept(depth, ignore, ps);
    ScanRecordsOnlyKept(depth, ignore, ps);
    FlattenMembers(walk);
    assert |snap.files| == |es| by {
      assert |multiset(snap.files)| == |multiset(es)|;
    }
    forall e | e in snap.files ensures e in es {
      assert e in multiset(snap.files);
    }
    forall i, j | 0 <= i < |walk| && 0 <= j < |walk[i].files| && Kept(depth, ignore, Placed(walk[i].root, walk[i].files[j]))
      ensures Classify(LeafRel(depth, Placed(walk[i].root, walk[i].files[j])).value, walk[i].files[j]) in snap.files
    {
      var p := Placed(walk[i].root, walk[i].files[j]);
      var k :| 0 <= k < |ps| && ps[k] == p;
      var e := Classify(LeafRel(depth, p).value, p.leaf);
      assert e in es;
      assert e in multiset(es);
    }
  }
}
