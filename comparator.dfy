/**
  The comparison of a scan against every stored reference (the `if args.compare:`
  block) and the ranking of its results.
  Each reference is judged in two passes, each applying the OTHER side's
  ignore list: reference entries missing from or changed in the scan, then
  scanned entries the reference has no path for. The per-reference results are
  then ranked, most messages first.
*/
module Comparator {
  import opened Wrappers
  import opened Snapshots

  /** A discrepancy for reference `key`; `Text` gives the line the tool reports. */
  datatype Message =
    | Different(key: string, path: string)        // the path is in both, with other contents
    | NotScanned(key: string, path: string)       // the reference's path is absent from the scan
    | NotInReference(path: string, key: string)   // the scanned path is absent from the reference

  function Text(m: Message): string
  {
    match m
    case Different(key, path) => key + ": " + path + " is different"
    case NotScanned(key, path) => key + ": " + path + " not found in scanned files"
    case NotInReference(path, key) => path + " not found in " + key
  }

  /** A reference entry pass 1 reports: its path is not ignored by the scan and the scan lacks the entry. */
  predicate FlaggedByPass1(e: Entry, live: Snapshot)
  {
    !IsIgnored(e.path, live.ignore) && e !in live.files
  }

  /** A scanned entry pass 2 reports: its path is not ignored by the reference and the reference lacks the path. */
  predicate FlaggedByPass2(e: Entry, ref: Snapshot)
  {
    !IsIgnored(e.path, ref.ignore) && forall k :: 0 <= k < |ref.files| ==> ref.files[k].path != e.path
  }

  /** Pass 1 on one reference entry `e`: one turn of `for dbfile in dbentry['files']`. */
  function RefVerdict(key: string, e: Entry, live: Snapshot): (r: Option<Message>)
    ensures r.Some? <==> FlaggedByPass1(e, live)
    ensures r.Some? ==> (r.value.Different? || r.value.NotScanned?) && r.value.key == key && r.value.path == e.path
    ensures r.Some? ==>
      (r.value.Different? <==> exists k :: 0 <= k < |live.files| && live.files[k].path == e.path)
  {
    if IsIgnored(e.path, live.ignore) then None
    else if e in live.files then None
    else if FindByFilename(e.path, live.files).Some? then Some(Different(key, e.path))
    else Some(NotScanned(key, e.path))
  }

  /** Pass 2 on one scanned entry `e`: one turn of `for trfile in trdata['files']`; a shared path was already reported by pass 1. */
  function LiveVerdict(key: string, e: Entry, ref: Snapshot): (r: Option<Message>)
    ensures r.Some? <==> FlaggedByPass2(e, ref)
    ensures r.Some? ==> r.value == NotInReference(e.path, key)
  {
    if IsIgnored(e.path, ref.ignore) then None
    else if e in ref.files then None
    else if FindByFilename(e.path, ref.files).Some? then None
    else Some(NotInReference(e.path, key))
  }

  function Emit(v: Option<Message>): seq<Message>
  {
    if v.Some? then [v.value] else []
  }

  /** The messages of pass 1 over the reference entries `refFiles`, in their order. */
  function Pass1(key: string, refFiles: seq<Entry>, live: Snapshot): seq<Message>
  {
    if refFiles == [] then []
    else Pass1(key, refFiles[..|refFiles| - 1], live) + Emit(RefVerdict(key, refFiles[|refFiles| - 1], live))
  }

  /** The messages of pass 2 over the scanned entries `liveFiles`, in their order. */
  function Pass2(key: string, liveFiles: seq<Entry>, ref: Snapshot): seq<Message>
  {
    if liveFiles == [] then []
    else Pass2(key, liveFiles[..|liveFiles| - 1], ref) + Emit(LiveVerdict(key, liveFiles[|liveFiles| - 1], ref))
  }

  /** `result[key]` after both passes against the reference `ref`. */
  function Discrepancies(key: string, ref: Snapshot, live: Snapshot): seq<Message>
  {
    Pass1(key, ref.files, live) + Pass2(key, live.files, ref)
  }

  /** The body of `for dbkey, dbentry in db.iteritems()` for one reference. */
  method CompareOne(key: string, ref: Snapshot, live: Snapshot) returns (msgs: seq<Message>)
    ensures msgs == Discrepancies(key, ref, live)
  {
    var missing := ReferencePass(key, ref, live);
    var added := ScanPass(key, live, ref);
    msgs := missing + added;
  }

  /** `for dbfile in dbentry['files']`: the reference entries the scan does not reproduce. */
  method ReferencePass(key: string, ref: Snapshot, live: Snapshot) returns (msgs: seq<Message>)
    ensures msgs == Pass1(key, ref.files, live)
  {
    msgs := [];
    for i := 0 to |ref.files|
      invariant msgs == Pass1(key, ref.files[..i], live)
    {
      Pass1Snoc(key, ref.files, i, live);
      var dbfile := ref.files[i];
      if IsIgnored(dbfile.path, live.ignore) {
        continue;
      }
      if dbfile !in live.files {
        var msg;
        if FindByFilename(dbfile.path, live.files).Some? {
          msg := Different(key, dbfile.path);
        } else {
          msg := NotScanned(key, dbfile.path);
        }
        msgs := msgs + [msg];
      }
    }
    assert ref.files[..|ref.files|] == ref.files;
  }

  /** `for trfile in trdata['files']`: the scanned entries whose path the reference does not have. */
  method ScanPass(key: string, live: Snapshot, ref: Snapshot) returns (msgs: seq<Message>)
    ensures msgs == Pass2(key, live.files, ref)
  {
    msgs := [];
    for i := 0 to |live.files|
      invariant msgs == Pass2(key, live.files[..i], ref)
    {
      Pass2Snoc(key, live.files, i, ref);
      var trfile := live.files[i];
      if IsIgnored(trfile.path, ref.ignore) {
        continue;
      }
      if trfile !in ref.files {
        if FindByFilename(trfile.path, ref.files).Some? {
          continue;
        }
        msgs := msgs + [NotInReference(trfile.path, key)];
      }
    }
    assert live.files[..|live.files|] == live.files;
  }

  lemma Pass1Snoc(key: string, refFiles: seq<Entry>, i: nat, live: Snapshot)
    requires i < |refFiles|
    ensures Pass1(key, refFiles[..i + 1], live) == Pass1(key, refFiles[..i], live) + Emit(RefVerdict(key, refFiles[i], live))
  {
    assert refFiles[..i + 1][..i] == refFiles[..i];
  }

  lemma Pass2Snoc(key: string, liveFiles: seq<Entry>, i: nat, ref: Snapshot)
    requires i < |liveFiles|
    ensures Pass2(key, liveFiles[..i + 1], ref) == Pass2(key, liveFiles[..i], ref) + Emit(LiveVerdict(key, liveFiles[i], ref))
  {
    assert liveFiles[..i + 1][..i] == liveFiles[..i];
  }

  /** `for dbkey, dbentry in db.iteritems()`: one message list per reference, in whatever order the database is iterated. */
  method CompareAll(db: map<string, Snapshot>, live: Snapshot) returns (result: map<string, seq<Message>>)
    ensures result.Keys == db.Keys
    ensures forall key :: key in db ==> result[key] == Discrepancies(key, db[key], live)
  {
    result := map[];
    var pending := db.Keys;
    while pending != {}
      invariant pending <= db.Keys
      invariant result.Keys == db.Keys - pending
      invariant forall key :: key in result ==> result[key] == Discrepancies(key, db[key], live)
      decreases pending
    {
      var key :| key in pending;
      var msgs := CompareOne(key, db[key], live);
      result := result[key := msgs];
      pending := pending - {key};
    }
  }

  /** One line of the summary: a reference and its messages. */
  datatype Report = Report(key: string, messages: seq<Message>)

  predicate WorstFirst(rs: seq<Report>)
  {
    forall i, j :: 0 <= i < j < |rs| ==> |rs[i].messages| >= |rs[j].messages|
  }

  /** Places `r` into a ranking, ahead of the reports with no more messages than it. */
  function InsertByCount(r: Report, rs: seq<Report>): (out: seq<Report>)
    requires WorstFirst(rs)
    ensures WorstFirst(out)
    ensures multiset(out) == multiset(rs) + multiset{r}
    ensures out[0] == r || (rs != [] && out[0] == rs[0])
  {
    if rs == [] || |rs[0].messages| <= |r.messages| then
      ConsWorstFirst(r, rs);
      [r] + rs
    else
      var t := InsertByCount(r, rs[1..]);
      InsertAfterHead(r, rs, t);
      [rs[0]] + t
  }

  /** The step of `InsertByCount` that keeps the head of `rs` in front of `t`, the insertion into the rest. */
  lemma InsertAfterHead(r: Report, rs: seq<Report>, t: seq<Report>)
    requires WorstFirst(rs) && rs != [] && |rs[0].messages| > |r.messages|
    requires WorstFirst(t) && multiset(t) == multiset(rs[1..]) + multiset{r}
    requires t != [] && (t[0] == r || (rs[1..] != [] && t[0] == rs[1..][0]))
    ensures WorstFirst([rs[0]] + t)
    ensures multiset([rs[0]] + t) == multiset(rs) + multiset{r}
  {
    ConsWorstFirst(rs[0], t);
    assert rs == [rs[0]] + rs[1..];
  }

  lemma ConsWorstFirst(x: Report, t: seq<Report>)
    requires WorstFirst(t)
    requires t != [] ==> |x.messages| >= |t[0].messages|
    ensures WorstFirst([x] + t)
  {
    forall i, j | 0 <= i < j < |[x] + t| ensures |([x] + t)[i].messages| >= |([x] + t)[j].messages| {
      if i == 0 && j > 1 {
        assert |t[0].messages| >= |t[j - 1].messages|;
      }
    }
  }

  /** `sorted(items, key=lambda e: len(e[1]), reverse=True)`: most messages first, the same reports. */
  function RankByCount(rs: seq<Report>): (out: seq<Report>)
    ensures WorstFirst(out)
    ensures multiset(out) == multiset(rs)
  {
    if rs == [] then []
    else
      assert rs == [rs[0]] + rs[1..];
      InsertByCount(rs[0], RankByCount(rs[1..]))
  }

  /** `result.items()`: one report per key of the results, in whatever order the dictionary yields them. */
  method Items(result: map<string, seq<Message>>) returns (items: seq<Report>)
    ensures |items| == |result.Keys|
    ensures forall i :: 0 <= i < |items| ==> items[i].key in result && items[i].messages == result[items[i].key]
    ensures forall key :: key in result ==> exists i :: 0 <= i < |items| && items[i].key == key
  {
    items := [];
    var pending := result.Keys;
    while pending != {}
      invariant pending <= result.Keys
      invariant |items| + |pending| == |result.Keys|
      invariant forall i :: 0 <= i < |items| ==> items[i].key in result && items[i].messages == result[items[i].key]
      invariant forall key :: key in result && key !in pending ==> exists i :: 0 <= i < |items| && items[i].key == key
      invariant forall i :: 0 <= i < |items| ==> items[i].key !in pending
      decreases pending
    {
      var key :| key in pending;
      ghost var prev := items;
      items := items + [Report(key, result[key])];
      pending := pending - {key};
      assert items[|prev|].key == key;
      assert forall i :: 0 <= i < |prev| ==> items[i] == prev[i];
    }
  }

  /** `sorted(result.items(), key=lambda e: len(e[1]), reverse=True)`: the results as a list of reports, most messages first. */
  method RankResults(result: map<string, seq<Message>>) returns (ranked: seq<Report>)
    ensures WorstFirst(ranked)
    ensures |ranked| == |result.Keys|
    ensures forall i :: 0 <= i < |ranked| ==> ranked[i].key in result && ranked[i].messages == result[ranked[i].key]
    ensures forall key :: key in result ==> exists i :: 0 <= i < |ranked| && ranked[i].key == key
  {
    var items := Items(result);
    ranked := RankByCount(items);
    Reordered(result, items, ranked);
  }

  /** A reordering of the reports of `result` is still one report per key. */
  lemma Reordered(result: map<string, seq<Message>>, items: seq<Report>, ranked: seq<Report>)
    requires multiset(ranked) == multiset(items)
    requires forall i :: 0 <= i < |items| ==> items[i].key in result && items[i].messages == result[items[i].key]
    requires forall key :: key in result ==> exists i :: 0 <= i < |items| && items[i].key == key
    ensures |ranked| == |items|
    ensures forall i :: 0 <= i < |ranked| ==> ranked[i].key in result && ranked[i].messages == result[ranked[i].key]
    ensures forall key :: key in result ==> exists i :: 0 <= i < |ranked| && ranked[i].key == key
  {
    assert |ranked| == |items| by {
      assert |multiset(ranked)| == |multiset(items)|;
    }
    forall i | 0 <= i < |ranked| ensures ranked[i].key in result && ranked[i].messages == result[ranked[i].key] {
      assert ranked[i] in multiset(items);
    }
    forall key | key in result ensures exists i :: 0 <= i < |ranked| && ranked[i].key == key {
      var i :| 0 <= i < |items| && items[i].key == key;
      assert items[i] in multiset(ranked);
    }
  }

  // ----- what the two passes report -----

  /** Pass 1 reports, for each reference entry, exactly its verdict. */
  lemma {:induction false} Pass1Members(key: string, refFiles: seq<Entry>, live: Snapshot)
    ensures forall m :: m in Pass1(key, refFiles, live) <==>
      exists k :: 0 <= k < |refFiles| && RefVerdict(key, refFiles[k], live) == Some(m)
  {
    if refFiles != [] {
      var init := refFiles[..|refFiles| - 1];
      Pass1Members(key, init, live);
      assert forall k :: 0 <= k < |init| ==> init[k] == refFiles[k];
    }
  }

  /** Pass 2 reports, for each scanned entry, exactly its verdict. */
  lemma {:induction false} Pass2Members(key: string, liveFiles: seq<Entry>, ref: Snapshot)
    ensures forall m :: m in Pass2(key, liveFiles, ref) <==>
      exists k :: 0 <= k < |liveFiles| && LiveVerdict(key, liveFiles[k], ref) == Some(m)
  {
    if liveFiles != [] {
      var init := liveFiles[..|liveFiles| - 1];
      Pass2Members(key, init, ref);
      assert forall k :: 0 <= k < |init| ==> init[k] == liveFiles[k];
    }
  }

  /** The reference entries pass 1 flags: not ignored by the scan's list and not present in the scan. */
  ghost function Flagged1(refFiles: seq<Entry>, live: Snapshot): set<int>
  {
    set k | 0 <= k < |refFiles| && FlaggedByPass1(refFiles[k], live)
  }

  /** The scanned entries pass 2 flags: not ignored by the reference's list and with a path the reference lacks. */
  ghost function Flagged2(liveFiles: seq<Entry>, ref: Snapshot): set<int>
  {
    set k | 0 <= k < |liveFiles| && FlaggedByPass2(liveFiles[k], ref)
  }

  lemma Flagged1Snoc(refFiles: seq<Entry>, live: Snapshot)
    requires refFiles != []
    ensures var n := |refFiles| - 1;
      n !in Flagged1(refFiles[..n], live) &&
      Flagged1(refFiles, live) == Flagged1(refFiles[..n], live) + (if FlaggedByPass1(refFiles[n], live) then {n} else {})
  {
    var n := |refFiles| - 1;
    var init := refFiles[..n];
    var last := if FlaggedByPass1(refFiles[n], live) then {n} else {};
    forall k ensures k in Flagged1(refFiles, live) <==> k in Flagged1(init, live) + last {
      if 0 <= k < n {
        assert init[k] == refFiles[k];
      }
    }
  }

  lemma Flagged2Snoc(liveFiles: seq<Entry>, ref: Snapshot)
    requires liveFiles != []
    ensures var n := |liveFiles| - 1;
      n !in Flagged2(liveFiles[..n], ref) &&
      Flagged2(liveFiles, ref) == Flagged2(liveFiles[..n], ref) + (if FlaggedByPass2(liveFiles[n], ref) then {n} else {})
  {
    var n := |liveFiles| - 1;
    var init := liveFiles[..n];
    var last := if FlaggedByPass2(liveFiles[n], ref) then {n} else {};
    forall k ensures k in Flagged2(liveFiles, ref) <==> k in Flagged2(init, ref) + last {
      if 0 <= k < n {
        assert init[k] == liveFiles[k];
      }
    }
  }

  /** Pass 1 adds exactly one message per flagged reference entry. */
  lemma {:induction false} Pass1Count(key: string, refFiles: seq<Entry>, live: Snapshot)
    ensures |Pass1(key, refFiles, live)| == |Flagged1(refFiles, live)|
  {
    if refFiles == [] {
      assert Flagged1(refFiles, live) == {};
    } else {
      var n := |refFiles| - 1;
      Pass1Count(key, refFiles[..n], live);
      Flagged1Snoc(refFiles, live);
    }
  }

  /** Pass 2 adds exactly one message per flagged scanned entry. */
  lemma {:induction false} Pass2Count(key: string, liveFiles: seq<Entry>, ref: Snapshot)
    ensures |Pass2(key, liveFiles, ref)| == |Flagged2(liveFiles, ref)|
  {
    if liveFiles == [] {
      assert Flagged2(liveFiles, ref) == {};
    } else {
      var n := |liveFiles| - 1;
      Pass2Count(key, liveFiles[..n], ref);
      Flagged2Snoc(liveFiles, ref);
    }
  }

  /**
    Each side's ignore list is applied to the other side: no pass-1 message is
    about a path the scan ignores, no pass-2 message about a path the reference
    ignores, and no pass-2 message about a path the reference has.
  */
  lemma IgnoreListsCrossApplied(key: string, ref: Snapshot, live: Snapshot)
    ensures forall m :: m in Pass1(key, ref.files, live) ==> !IsIgnored(m.path, live.ignore)
    ensures forall m :: m in Pass2(key, live.files, ref) ==>
      !IsIgnored(m.path, ref.ignore) && forall j :: 0 <= j < |ref.files| ==> ref.files[j].path != m.path
  {
    Pass1Members(key, ref.files, live);
    Pass2Members(key, live.files, ref);
  }

  /** At most one message per entry on either side. */
  lemma {:induction false} DiscrepancyBound(key: string, ref: Snapshot, live: Snapshot)
    ensures |Discrepancies(key, ref, live)| <= |ref.files| + |live.files|
  {
    Pass1Bound(key, ref.files, live);
    Pass2Bound(key, live.files, ref);
  }

  lemma {:induction false} Pass1Bound(key: string, refFiles: seq<Entry>, live: Snapshot)
    ensures |Pass1(key, refFiles, live)| <= |refFiles|
  {
    if refFiles != [] {
      Pass1Bound(key, refFiles[..|refFiles| - 1], live);
    }
  }

  lemma {:induction false} Pass2Bound(key: string, liveFiles: seq<Entry>, ref: Snapshot)
    ensures |Pass2(key, liveFiles, ref)| <= |liveFiles|
  {
    if liveFiles != [] {
      Pass2Bound(key, liveFiles[..|liveFiles| - 1], ref);
    }
  }

  /** Two snapshots holding the same entries give no messages, whatever their ignore lists. */
  lemma SameEntriesNoDiscrepancies(key: string, ref: Snapshot, live: Snapshot)
    requires forall e :: e in ref.files <==> e in live.files
    ensures Discrepancies(key, ref, live) == []
  {
    Pass1Members(key, ref.files, live);
    Pass2Members(key, live.files, ref);
    forall k | 0 <= k < |ref.files| ensures RefVerdict(key, ref.files[k], live).None? {
      assert ref.files[k] in ref.files;
    }
    forall k | 0 <= k < |live.files| ensures LiveVerdict(key, live.files[k], ref).None? {
      assert live.files[k] in live.files;
      var j :| 0 <= j < |ref.files| && ref.files[j] == live.files[k];
    }
    NoMembersEmpty(Pass1(key, ref.files, live));
    NoMembersEmpty(Pass2(key, live.files, ref));
  }

  lemma NoMembersEmpty(s: seq<Message>)
    ensures (forall m :: m !in s) ==> s == []
  {
    if s != [] {
      assert s[0] in s;
    }
  }

  /** Comparing a snapshot with itself is a perfect match. */
  lemma SelfComparisonIsClean(key: string, s: Snapshot)
    ensures Discrepancies(key, s, s) == []
  {
    SameEntriesNoDiscrepancies(key, s, s);
  }

  // ----- every difference is reported exactly once -----

  /** The number of messages about `path`. */
  function CountAbout(path: string, msgs: seq<Message>): nat
  {
    if msgs == [] then 0 else (if msgs[0].path == path then 1 else 0) + CountAbout(path, msgs[1..])
  }

  lemma {:induction false} CountAboutAppend(path: string, a: seq<Message>, b: seq<Message>)
    ensures CountAbout(path, a + b) == CountAbout(path, a) + CountAbout(path, b)
  {
    if a == [] {
      assert a + b == b;
    } else {
      assert (a + b)[1..] == a[1..] + b;
      CountAboutAppend(path, a[1..], b);
    }
  }

  /** Some reference entry at `path` is flagged by pass 1. */
  ghost predicate FlaggedAt1(refFiles: seq<Entry>, live: Snapshot, path: string)
  {
    exists k :: 0 <= k < |refFiles| && refFiles[k].path == path && FlaggedByPass1(refFiles[k], live)
  }

  /** Some scanned entry at `path` is flagged by pass 2. */
  ghost predicate FlaggedAt2(liveFiles: seq<Entry>, ref: Snapshot, path: string)
  {
    exists k :: 0 <= k < |liveFiles| && liveFiles[k].path == path && FlaggedByPass2(liveFiles[k], ref)
  }

  lemma FlaggedAt1Snoc(refFiles: seq<Entry>, live: Snapshot, path: string)
    requires refFiles != [] && UniquePaths(refFiles)
    ensures var n := |refFiles| - 1;
      UniquePaths(refFiles[..n]) &&
      (FlaggedAt1(refFiles, live, path) <==>
        FlaggedAt1(refFiles[..n], live, path) || (refFiles[n].path == path && FlaggedByPass1(refFiles[n], live))) &&
      (refFiles[n].path == path ==> !FlaggedAt1(refFiles[..n], live, path))
  {
    var n := |refFiles| - 1;
    assert forall k :: 0 <= k < n ==> refFiles[..n][k] == refFiles[k];
  }

  lemma FlaggedAt2Snoc(liveFiles: seq<Entry>, ref: Snapshot, path: string)
    requires liveFiles != [] && UniquePaths(liveFiles)
    ensures var n := |liveFiles| - 1;
      UniquePaths(liveFiles[..n]) &&
      (FlaggedAt2(liveFiles, ref, path) <==>
        FlaggedAt2(liveFiles[..n], ref, path) || (liveFiles[n].path == path && FlaggedByPass2(liveFiles[n], ref))) &&
      (liveFiles[n].path == path ==> !FlaggedAt2(liveFiles[..n], ref, path))
  {
    var n := |liveFiles| - 1;
    assert forall k :: 0 <= k < n ==> liveFiles[..n][k] == liveFiles[k];
  }

  lemma CountAboutEmit(path: string, v: Option<Message>)
    ensures CountAbout(path, Emit(v)) == if v.Some? && v.value.path == path then 1 else 0
  {
  }

  /** With unique reference paths, pass 1 says at most one thing about a path: whether its entry is flagged. */
  lemma {:induction false} Pass1CountAbout(key: string, refFiles: seq<Entry>, live: Snapshot, path: string)
    requires UniquePaths(refFiles)
    ensures CountAbout(path, Pass1(key, refFiles, live)) == if FlaggedAt1(refFiles, live, path) then 1 else 0
  {
    if refFiles != [] {
      var n := |refFiles| - 1;
      var init := refFiles[..n];
      FlaggedAt1Snoc(refFiles, live, path);
      Pass1CountAbout(key, init, live, path);
      CountAboutAppend(path, Pass1(key, init, live), Emit(RefVerdict(key, refFiles[n], live)));
      CountAboutEmit(path, RefVerdict(key, refFiles[n], live));
    }
  }

  /** With unique scanned paths, pass 2 says at most one thing about a path: whether its entry is flagged. */
  lemma {:induction false} Pass2CountAbout(key: string, liveFiles: seq<Entry>, ref: Snapshot, path: string)
    requires UniquePaths(liveFiles)
    ensures CountAbout(path, Pass2(key, liveFiles, ref)) == if FlaggedAt2(liveFiles, ref, path) then 1 else 0
  {
    if liveFiles != [] {
      var n := |liveFiles| - 1;
      var init := liveFiles[..n];
      FlaggedAt2Snoc(liveFiles, ref, path);
      Pass2CountAbout(key, init, ref, path);
      CountAboutAppend(path, Pass2(key, init, ref), Emit(LiveVerdict(key, liveFiles[n], ref)));
      CountAboutEmit(path, LiveVerdict(key, liveFiles[n], ref));
    }
  }

  /**
    Whether the comparison has something to say about `path`: a reference entry
    there that the scan does not ignore and does not hold, or a scanned entry
    there that the reference does not ignore and has no path for.
  */
  ghost predicate Reported(ref: Snapshot, live: Snapshot, path: string)
  {
    (!IsIgnored(path, live.ignore) &&
     exists k :: 0 <= k < |ref.files| && ref.files[k].path == path && ref.files[k] !in live.files)
    ||
    (!IsIgnored(path, ref.ignore) &&
     (exists k :: 0 <= k < |live.files| && live.files[k].path == path) &&
     forall k :: 0 <= k < |ref.files| ==> ref.files[k].path != path)
  }

  /**
    When paths are unique on both sides, every reported path gets exactly one
    message across both passes and every other path none: a changed file is
    never reported twice.
  */
  lemma ReportedExactlyOnce(key: string, ref: Snapshot, live: Snapshot, path: string)
    requires UniquePaths(ref.files) && UniquePaths(live.files)
    ensures CountAbout(path, Discrepancies(key, ref, live)) == if Reported(ref, live, path) then 1 else 0
  {
    CountAboutAppend(path, Pass1(key, ref.files, live), Pass2(key, live.files, ref));
    Pass1CountAbout(key, ref.files, live, path);
    Pass2CountAbout(key, live.files, ref, path);
  }

  /** A file present on both sides with different contents is reported once, as different. */
  lemma ChangedFileReportedOnce(key: string, ref: Snapshot, live: Snapshot, i: nat, j: nat)
    requires UniquePaths(ref.files) && UniquePaths(live.files)
    requires i < |ref.files| && j < |live.files|
    requires ref.files[i].path == live.files[j].path && ref.files[i] != live.files[j]
    requires !IsIgnored(ref.files[i].path, live.ignore)
    ensures CountAbout(ref.files[i].path, Discrepancies(key, ref, live)) == 1
    ensures Different(key, ref.files[i].path) in Discrepancies(key, ref, live)
  {
    var e := ref.files[i];
    forall m | 0 <= m < |live.files| ensures live.files[m] != e {
      if m != j {
        assert live.files[m].path != live.files[j].path;
      }
    }
    ReportedExactlyOnce(key, ref, live, e.path);
    Pass1Members(key, ref.files, live);
    assert RefVerdict(key, e, live) == Some(Different(key, e.path));
  }

  // ----- worked examples -----

  lemma Pass1Single(key: string, e: Entry, live: Snapshot)
    ensures Pass1(key, [e], live) == Emit(RefVerdict(key, e, live))
  {
    assert [e][..0] == [];
  }

  lemma Pass2Single(key: string, e: Entry, ref: Snapshot)
    ensures Pass2(key, [e], ref) == Emit(LiveVerdict(key, e, ref))
  {
    assert [e][..0] == [];
  }

  /**
    Every line names the reference and the path: a pass-1 line starts with the
    key and a colon, then the path; a pass-2 line starts with the path and ends
    with the key.
  */
  lemma TextNamesKeyAndPath(m: Message)
    ensures !m.NotInReference? ==>
      Text(m)[..|m.key| + 2] == m.key + ": " && Text(m)[|m.key| + 2..|m.key| + 2 + |m.path|] == m.path
    ensures m.NotInReference? ==>
      Text(m)[..|m.path|] == m.path && Text(m)[|Text(m)| - |m.key|..] == m.key
  {
    var t := Text(m);
    match m
    case Different(key, path) =>
      assert t == (key + ": ") + path + " is different";
    case NotScanned(key, path) =>
      assert t == (key + ": ") + path + " not found in scanned files";
    case NotInReference(path, key) =>
      assert t == path + " not found in " + key;
  }

  /** One file with another digest on each side: one "is different" message, not two. */
  lemma ChangedDigestExample()
    ensures Discrepancies("db.json",
      Snapshot(Some("app"), [Entry(FileKind, "def456", "a.txt")], DefaultIgnore),
      Snapshot(None, [Entry(FileKind, "abc123", "a.txt")], DefaultIgnore))
      == [Different("db.json", "a.txt")]
  {
    var old_ := Entry(FileKind, "def456", "a.txt");
    var new_ := Entry(FileKind, "abc123", "a.txt");
    var ref := Snapshot(Some("app"), [old_], DefaultIgnore);
    var live := Snapshot(None, [new_], DefaultIgnore);
    DefaultIgnoreMatches("a.txt");
    Pass1Single("db.json", old_, live);
    Pass2Single("db.json", new_, ref);
    assert old_ != new_;
    assert RefVerdict("db.json", old_, live) == Some(Different("db.json", "a.txt"));
    assert LiveVerdict("db.json", new_, ref) == None;
  }

  /** A reference path the scan ignores is not a discrepancy. */
  lemma IgnoredByScanExample()
    ensures Discrepancies("db.json",
      Snapshot(Some("app"), [Entry(FileKind, "x", "secret/key")], []),
      Snapshot(None, [], ["secret/*"]))
      == []
  {
    var e := Entry(FileKind, "x", "secret/key");
    var live := Snapshot(None, [], ["secret/*"]);
    assert IsIgnored("secret/key", ["secret/*"]) by {
      assert Glob.PlainText("secret/");
      Glob.PrefixStarMatches("secret/key", "secret/");
      assert "secret/" + "*" == "secret/*";
    }
    Pass1Single("db.json", e, live);
  }

  /** A reference file the scan lacks is reported once, as not found in the scanned files. */
  lemma MissingFileExample()
    ensures Discrepancies("db.json",
      Snapshot(Some("app"), [Entry(FileKind, "h1", "b.txt")], DefaultIgnore),
      Snapshot(None, [], DefaultIgnore))
      == [NotScanned("db.json", "b.txt")]
  {
    var e := Entry(FileKind, "h1", "b.txt");
    var live := Snapshot(None, [], DefaultIgnore);
    DefaultIgnoreMatches("b.txt");
    Pass1Single("db.json", e, live);
    assert RefVerdict("db.json", e, live) == Some(NotScanned("db.json", "b.txt"));
  }

  /** A scanned file the reference lacks is reported once, as not found in the reference. */
  lemma NewFileExample()
    ensures Discrepancies("db.json",
      Snapshot(Some("app"), [], DefaultIgnore),
      Snapshot(None, [Entry(FileKind, "h2", "c.txt")], DefaultIgnore))
      == [NotInReference("c.txt", "db.json")]
  {
    var e := Entry(FileKind, "h2", "c.txt");
    var ref := Snapshot(Some("app"), [], DefaultIgnore);
    DefaultIgnoreMatches("c.txt");
    Pass2Single("db.json", e, ref);
    assert LiveVerdict("db.json", e, ref) == Some(NotInReference("c.txt", "db.json"));
  }

  /**
    A change at a path that the scan's own ignore list matches is never
    reported: pass 1 skips the reference entry as ignored, and pass 2 skips
    the scanned one because the reference has its path.
  */
  lemma SelfIgnoredChangeExample()
    ensures Discrepancies("db.json",
      Snapshot(None, [Entry(FileKind, "h1", "p")], []),
      Snapshot(None, [Entry(FileKind, "h2", "p")], ["p"]))
      == []
  {
    var old_ := Entry(FileKind, "h1", "p");
    var new_ := Entry(FileKind, "h2", "p");
    var ref := Snapshot(None, [old_], []);
    var live := Snapshot(None, [new_], ["p"]);
    assert IsIgnored("p", ["p"]) by {
      assert Glob.PlainText("p");
      Glob.PlainPatternMatchesItself("p", "p");
    }
    Pass1Single("db.json", old_, live);
    Pass2Single("db.json", new_, ref);
    assert RefVerdict("db.json", old_, live) == None;
    assert LiveVerdict("db.json", new_, ref) == None by {
      assert ref.files[0].path == new_.path;
    }
  }

  /** A symbolic link whose target changed is reported as different, though nothing was hashed. */
  lemma RetargetedLinkExample()
    ensures Discrepancies("db.json",
      Snapshot(Some("app"), [Entry(LinkKind, "../A", "x")], DefaultIgnore),
      Snapshot(None, [Entry(LinkKind, "../B", "x")], DefaultIgnore))
      == [Different("db.json", "x")]
  {
    var old_ := Entry(LinkKind, "../A", "x");
    var new_ := Entry(LinkKind, "../B", "x");
    var ref := Snapshot(Some("app"), [old_], DefaultIgnore);
    var live := Snapshot(None, [new_], DefaultIgnore);
    DefaultIgnoreMatches("x");
    Pass1Single("db.json", old_, live);
    Pass2Single("db.json", new_, ref);
    assert old_ != new_ by {
      assert old_.data[3] != new_.data[3];
    }
    assert RefVerdict("db.json", old_, live) == Some(Different("db.json", "x"));
    assert LiveVerdict("db.json", new_, ref) == None;
  }
}
