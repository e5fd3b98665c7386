/**
  The data the scanner and the comparator share: an entry is the three strings
  `[kind, data, path]` a snapshot stores per file, a snapshot is the
  `{description, files, ignore}` record. Also the two searches over them
  (`isignored`, `find_by_filename`) and the sort of a scan by path.
*/
module Snapshots {
  import opened Wrappers
  import Glob

  /** Kind codes and the text an entry without identity carries (Python's `unicode(None)`). */
  const LinkKind := "l"
  const FileKind := "f"
  const OtherKind := "o"
  const NoneText := "None"

  /** The ignore list a scan uses when none is given on the command line. */
  const DefaultIgnore: seq<string> := ["Contents/_MASReceipt/*"]

  /** One recorded filesystem object; equality is structural on all three fields. */
  datatype Entry = Entry(kind: string, data: string, path: string)

  /** A scan or a stored reference: its label (absent for an unlabelled scan), its entries, its ignore patterns. */
  datatype Snapshot = Snapshot(description: Option<string>, files: seq<Entry>, ignore: seq<string>)

  /** `isignored`: whether some pattern of the list matches the whole relative path. */
  function IsIgnored(fn: string, ignoreList: seq<string>): (r: bool)
    ensures ignoreList == [] ==> !r
    ensures r <==> exists k :: 0 <= k < |ignoreList| && Glob.FnMatch(fn, ignoreList[k])
  {
    if ignoreList == [] then false
    else if Glob.FnMatch(fn, ignoreList[0]) then true
    else IsIgnored(fn, ignoreList[1..])
  }

  /** `find_by_filename`: the first entry recorded under path `fn`, if any. */
  function FindByFilename(fn: string, files: seq<Entry>): (r: Option<Entry>)
    ensures r.None? <==> forall k :: 0 <= k < |files| ==> files[k].path != fn
    ensures r.Some? ==>
      exists k :: 0 <= k < |files| && files[k] == r.value && r.value.path == fn &&
        forall m :: 0 <= m < k ==> files[m].path != fn
  {
    if files == [] then None
    else if fn == files[0].path then Some(files[0])
    else
      var r := FindByFilename(fn, files[1..]);
      assert forall m :: 1 <= m < |files| ==> files[m] == files[1..][m - 1];
      r
  }

  /** Python's ordering of text: code point by code point, a proper prefix first. */
  predicate PathLe(a: string, b: string)
  {
    a == [] || (b != [] && (a[0] < b[0] || (a[0] == b[0] && PathLe(a[1..], b[1..]))))
  }

  lemma {:induction false} PathLeTotal(a: string, b: string)
    ensures PathLe(a, b) || PathLe(b, a)
  {
    if a != [] && b != [] && a[0] == b[0] {
      PathLeTotal(a[1..], b[1..]);
    }
  }

  lemma {:induction false} PathLeTransitive(a: string, b: string, c: string)
    requires PathLe(a, b) && PathLe(b, c)
    ensures PathLe(a, c)
  {
    if a != [] && b != [] && c != [] && a[0] == b[0] && b[0] == c[0] {
      PathLeTransitive(a[1..], b[1..], c[1..]);
    }
  }

  lemma {:induction false} PathLeAntisymmetric(a: string, b: string)
    requires PathLe(a, b) && PathLe(b, a)
    ensures a == b
  {
    if a != [] && b != [] {
      PathLeAntisymmetric(a[1..], b[1..]);
      assert a == [a[0]] + a[1..] && b == [b[0]] + b[1..];
    }
  }

  predicate SortedByPath(s: seq<Entry>)
  {
    forall i, j :: 0 <= i < j < |s| ==> PathLe(s[i].path, s[j].path)
  }

  /** Places `e` into a sorted sequence, ahead of the entries whose path is not smaller. */
  function InsertByPath(e: Entry, s: seq<Entry>): (r: seq<Entry>)
    requires SortedByPath(s)
    ensures SortedByPath(r)
    ensures multiset(r) == multiset(s) + multiset{e}
    ensures r[0] == e || (s != [] && r[0] == s[0])
  {
    if s == [] || PathLe(e.path, s[0].path) then
      ConsSorted(e, s);
      [e] + s
    else
      var t := InsertByPath(e, s[1..]);
      InsertAfterHead(e, s, t);
      [s[0]] + t
  }

  /** The step of `InsertByPath` that keeps the head of `s` in front of `t`, the insertion into the rest. */
  lemma InsertAfterHead(e: Entry, s: seq<Entry>, t: seq<Entry>)
    requires SortedByPath(s) && s != [] && !PathLe(e.path, s[0].path)
    requires SortedByPath(t) && multiset(t) == multiset(s[1..]) + multiset{e}
    requires t != [] && (t[0] == e || (s[1..] != [] && t[0] == s[1..][0]))
    ensures SortedByPath([s[0]] + t)
    ensures multiset([s[0]] + t) == multiset(s) + multiset{e}
  {
    PathLeTotal(e.path, s[0].path);
    assert PathLe(s[0].path, t[0].path);
    ConsSorted(s[0], t);
    assert s == [s[0]] + s[1..];
  }

  lemma ConsSorted(e: Entry, t: seq<Entry>)
    requires SortedByPath(t)
    requires t != [] ==> PathLe(e.path, t[0].path)
    ensures SortedByPath([e] + t)
  {
    forall i, j | 0 <= i < j < |[e] + t| ensures PathLe(([e] + t)[i].path, ([e] + t)[j].path) {
      if i == 0 && j > 1 {
        PathLeTransitive(e.path, t[0].path, t[j - 1].path);
      }
    }
  }

  /** `sorted(entries, key=lambda entry: entry[2])`: ascending by path, the same entries. */
  function SortByPath(s: seq<Entry>): (r: seq<Entry>)
    ensures SortedByPath(r)
    ensures multiset(r) == multiset(s)
  {
    if s == [] then []
    else
      assert s == [s[0]] + s[1..];
      InsertByPath(s[0], SortByPath(s[1..]))
  }

  /** Whether no two entries share a path. */
  predicate UniquePaths(s: seq<Entry>)
  {
    forall i, j :: 0 <= i < j < |s| ==> s[i].path != s[j].path
  }

  /** A list of entries with distinct paths holds each entry at most once. */
  lemma {:induction false} UniqueEntriesOnce(s: seq<Entry>, x: Entry)
    requires UniquePaths(s)
    ensures multiset(s)[x] <= 1
  {
    if s != [] {
      var t := s[1..];
      assert s == [s[0]] + t;
      assert UniquePaths(t) by {
        forall i, j | 0 <= i < j < |t| ensures t[i].path != t[j].path {
          assert t[i] == s[i + 1] && t[j] == s[j + 1];
        }
      }
      UniqueEntriesOnce(t, x);
      if x == s[0] {
        forall k | 0 <= k < |t| ensures t[k] != x {
          assert t[k] == s[k + 1];
        }
        assert multiset(t)[x] == 0;
      }
    }
  }

  /** An entry that a list holds at most once appears at no second position. */
  lemma OnceNotRepeated(s: seq<Entry>, i: nat, j: nat)
    requires i < j < |s|
    requires multiset(s)[s[i]] <= 1
    ensures s[i] != s[j]
  {
    assert s == s[..j] + s[j..];
    assert s[i] == s[..j][i];
    assert multiset(s[..j])[s[i]] >= 1;
    assert multiset(s[j..])[s[i]] == 0;
    assert s[j] == s[j..][0];
  }

  /** Reordering a list of entries keeps its paths distinct; so does sorting a scan. */
  lemma PermutationKeepsPathsUnique(a: seq<Entry>, b: seq<Entry>)
    requires multiset(a) == multiset(b)
    requires UniquePaths(a)
    ensures UniquePaths(b)
  {
    forall i, j | 0 <= i < j < |b| ensures b[i].path != b[j].path {
      UniqueEntriesOnce(a, b[i]);
      OnceNotRepeated(b, i, j);
      assert b[i] in multiset(a) && b[j] in multiset(a);
      var ka :| 0 <= ka < |a| && a[ka] == b[i];
      var kb :| 0 <= kb < |a| && a[kb] == b[j];
      if ka < kb {
        assert a[ka].path != a[kb].path;
      } else {
        assert a[kb].path != a[ka].path;
      }
    }
  }

  /** The default ignore list excludes exactly the paths below `Contents/_MASReceipt/`. */
  lemma DefaultIgnoreMatches(fn: string)
    ensures IsIgnored(fn, DefaultIgnore) <==> (|fn| >= 21 && fn[..21] == "Contents/_MASReceipt/")
  {
    assert DefaultIgnore[1..] == [];
    ReceiptPatternMatches(fn);
  }

  lemma ReceiptPatternMatches(fn: string)
    ensures Glob.FnMatch(fn, DefaultIgnore[0]) <==> (|fn| >= 21 && fn[..21] == "Contents/_MASReceipt/")
  {
    var prefix := "Contents/_MASReceipt/";
    assert DefaultIgnore[0] == prefix + "*";
    assert Glob.PlainText(prefix);
    Glob.PrefixStarMatches(fn, prefix);
  }
}
