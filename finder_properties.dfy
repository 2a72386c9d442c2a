/**
 * What the finder guarantees, stated over the specification `Trace` and its
 * effect `Apply`, and so over every run of `SearchDirectory` and `Run`.
 */
module FinderProperties {
  import opened Wrappers
  import opened Paths
  import opened Finder

  // ---------------------------------------------------------------------
  // The result list of a run of steps
  // ---------------------------------------------------------------------

  /** The environments a run of steps records, in the order it records them. */
  function Reports(steps: seq<Step>): seq<Venv>
    decreases |steps|
  {
    if steps == [] then []
    else (if steps[0].Report? then [steps[0].venv] else []) + Reports(steps[1..])
  }

  lemma {:induction false} ReportsConcat(a: seq<Step>, b: seq<Step>)
    ensures Reports(a + b) == Reports(a) + Reports(b)
    decreases |a|
  {
    if a == [] {
      assert a + b == b;
    } else {
      assert (a + b)[0] == a[0];
      assert (a + b)[1..] == a[1..] + b;
      ReportsConcat(a[1..], b);
    }
  }

  lemma {:induction false} ReportsSingle(x: Step)
    ensures Reports([x]) == if x.Report? then [x.venv] else []
  {
    assert [x][1..] == [];
  }

  /** The result list `venvs` only ever grows, by exactly the reported environments. */
  lemma {:induction false} ApplyVenvs(s: ScanState, steps: seq<Step>)
    ensures Apply(s, steps).venvs == s.venvs + Reports(steps)
    decreases |steps|
  {
    if steps != [] {
      ApplyVenvs(Exec(s, steps[0]), steps[1..]);
    }
  }

  /** A searched entry contributes what its own scan reports, then the listing goes on. */
  lemma {:induction false} EntryReports(es: seq<Dir>, path: Path, depth: int, maxDepth: int)
    requires es != [] && !es[0].hasMarker
    ensures Reports(TraceEntries(es, path, depth, maxDepth))
         == Reports(Trace(es[0], Join(path, es[0].name), depth + 1, maxDepth))
          + Reports(TraceEntries(es[1..], path, depth, maxDepth))
  {
    var p := Join(path, es[0].name);
    var t := Trace(es[0], p, depth + 1, maxDepth);
    var rest := TraceEntries(es[1..], path, depth, maxDepth);
    var enter, leave := [Enter(p)], [Leave];
    var x := enter + t;
    var y := x + leave;
    assert TraceEntries(es, path, depth, maxDepth) == y + rest;
    ReportsConcat(y, rest);
    ReportsConcat(x, leave);
    ReportsConcat(enter, t);
    ReportsSingle(Enter(p));
    ReportsSingle(Leave);
  }

  // ---------------------------------------------------------------------
  // Counter accounting and progress
  // ---------------------------------------------------------------------

  /** Entries counted in `total_dirs` that are neither finished nor reported yet. */
  function Pending(s: ScanState): int
  {
    s.totalDirs - s.foundDirs - |s.venvs|
  }

  /** Every progress signal so far was emitted with `0 < total_dirs` and `found_dirs <= total_dirs`. */
  ghost predicate ProgressSound(signals: seq<Signal>)
  {
    forall i :: 0 <= i < |signals| && signals[i].Progress? ==>
      0 < signals[i].total && signals[i].found <= signals[i].total
  }

  lemma {:induction false} ProgressSoundAppend(signals: seq<Signal>, x: Signal)
    requires ProgressSound(signals)
    requires x.Progress? ==> 0 < x.total && x.found <= x.total
    ensures ProgressSound(signals + [x])
  {
    forall i | 0 <= i < |signals + [x]| && (signals + [x])[i].Progress?
      ensures 0 < (signals + [x])[i].total && (signals + [x])[i].found <= (signals + [x])[i].total
    {
      if i < |signals| {
        assert (signals + [x])[i] == signals[i];
      }
    }
  }

  /**
   * A call of `search_directory` leaves as many entries pending as it found,
   * and every progress signal it emits has a non-zero total no smaller than
   * the found count (no division by zero, a percentage within 0..100).
   */
  lemma {:induction false} TraceAccounting(d: Dir, path: Path, depth: int, maxDepth: int, s: ScanState)
    requires Pending(s) >= 0 && ProgressSound(s.emitted)
    ensures Pending(Apply(s, Trace(d, path, depth, maxDepth))) == Pending(s)
    ensures ProgressSound(Apply(s, Trace(d, path, depth, maxDepth)).emitted)
    decreases d, 1
  {
    if depth <= maxDepth {
      if !d.readable {
        assert Apply(s, [Deny(path)]) == Exec(s, Deny(path));
        ProgressSoundAppend(s.emitted, LogDenied(path));
      } else {
        EntriesAccounting(d.children, path, depth, maxDepth, s);
      }
    }
  }

  lemma {:induction false} EntriesAccounting(es: seq<Dir>, path: Path, depth: int, maxDepth: int, s: ScanState)
    requires Pending(s) >= 0 && ProgressSound(s.emitted)
    ensures Pending(Apply(s, TraceEntries(es, path, depth, maxDepth))) == Pending(s)
    ensures ProgressSound(Apply(s, TraceEntries(es, path, depth, maxDepth)).emitted)
    decreases es, 0
  {
    if es != [] {
      var p := Join(path, es[0].name);
      var s1 := Exec(s, Enter(p));
      assert Apply(s, [Enter(p)]) == s1;
      ProgressSoundAppend(s.emitted, LogScanning(p));
      if es[0].hasMarker {
        var v := Venv(ProjectName(p), p);
        ApplyConcat(s, [Enter(p)], [Report(v)]);
        assert [Enter(p)] + [Report(v)] == [Enter(p), Report(v)];
        assert Apply(s1, [Report(v)]) == Exec(s1, Report(v));
        ProgressSoundAppend(s1.emitted, LogFound(v));
      } else {
        var t := Trace(es[0], p, depth + 1, maxDepth);
        var rest := TraceEntries(es[1..], path, depth, maxDepth);
        ApplyConcat(s, [Enter(p)] + t + [Leave], rest);
        ApplyConcat(s, [Enter(p)] + t, [Leave]);
        ApplyConcat(s, [Enter(p)], t);
        TraceAccounting(es[0], p, depth + 1, maxDepth, s1);
        var s2 := Apply(s1, t);
        var s3 := Exec(s2, Leave);
        assert Apply(s2, [Leave]) == s3;
        ProgressSoundAppend(s2.emitted, Progress(s2.foundDirs + 1, s2.totalDirs));
        EntriesAccounting(es[1..], path, depth, maxDepth, s3);
      }
    }
  }

  /**
   * At the end of `run`, every counted entry was either finished or reported:
   * `total_dirs == found_dirs + len(venvs)`; and every progress percentage
   * emitted lies within 0..100.
   */
  lemma {:induction false} RunAccounting(root: Dir, searchPath: Path, maxDepth: int)
    ensures var f := FinalState(Some(root), searchPath, maxDepth);
      f.totalDirs == f.foundDirs + |f.venvs| && ProgressSound(f.emitted)
    ensures forall sig :: sig in FinalState(Some(root), searchPath, maxDepth).emitted && sig.Progress? ==>
      0 < sig.total && sig.found <= sig.total && Percent(sig.found, sig.total) <= 100
  {
    var s0 := InitialState(searchPath);
    assert ProgressSound(s0.emitted);
    TraceAccounting(root, searchPath, 0, maxDepth, s0);
    var f := FinalState(Some(root), searchPath, maxDepth);
    forall sig | sig in f.emitted && sig.Progress?
      ensures 0 < sig.total && sig.found <= sig.total && Percent(sig.found, sig.total) <= 100
    {
      var i :| 0 <= i < |f.emitted| && f.emitted[i] == sig;
    }
  }

  // ---------------------------------------------------------------------
  // Which environments are reported
  // ---------------------------------------------------------------------

  /**
   * `v` is reported by the listing of `d` at `path`: `d` is within the depth
   * bound and can be listed, and one of its entries either holds the marker
   * (then `v` is that entry, named after `d`) or has none and reports `v`
   * in its own listing one level deeper.
   */
  ghost predicate FoundBy(d: Dir, path: Path, depth: int, maxDepth: int, v: Venv)
    decreases d, 0
  {
    && depth <= maxDepth
    && d.readable
    && exists k :: 0 <= k < |d.children| && EntryYields(d.children[k], path, depth, maxDepth, v)
  }

  ghost predicate EntryYields(e: Dir, path: Path, depth: int, maxDepth: int, v: Venv)
    decreases e, 1
  {
    if e.hasMarker then v == Venv(Basename(path), Join(path, e.name))
    else FoundBy(e, Join(path, e.name), depth + 1, maxDepth, v)
  }

  /** Every environment the scan reports is found by the listing rule above. */
  lemma {:induction false} TraceSound(d: Dir, path: Path, depth: int, maxDepth: int)
    ensures forall v :: v in Reports(Trace(d, path, depth, maxDepth)) ==> FoundBy(d, path, depth, maxDepth, v)
    decreases d, 1
  {
    if depth <= maxDepth {
      if !d.readable {
        assert Reports([Deny(path)]) == [];
      } else {
        EntriesSound(d.children, path, depth, maxDepth);
      }
    }
  }

  lemma {:induction false} EntriesSound(es: seq<Dir>, path: Path, depth: int, maxDepth: int)
    ensures forall v :: v in Reports(TraceEntries(es, path, depth, maxDepth)) ==>
      exists k :: 0 <= k < |es| && EntryYields(es[k], path, depth, maxDepth, v)
    decreases es, 0
  {
    if es != [] {
      var p := Join(path, es[0].name);
      if es[0].hasMarker {
        var v := Venv(ProjectName(p), p);
        DirnameJoin(path, es[0].name);
        ReportsConcat([Enter(p)], [Report(v)]);
        ReportsSingle(Enter(p));
        ReportsSingle(Report(v));
        assert [Enter(p)] + [Report(v)] == [Enter(p), Report(v)];
        assert EntryYields(es[0], path, depth, maxDepth, v);
      } else {
        EntryReports(es, path, depth, maxDepth);
        TraceSound(es[0], p, depth + 1, maxDepth);
        EntriesSound(es[1..], path, depth, maxDepth);
        forall v | v in Reports(TraceEntries(es, path, depth, maxDepth))
          ensures exists k :: 0 <= k < |es| && EntryYields(es[k], path, depth, maxDepth, v)
        {
          if v in Reports(Trace(es[0], p, depth + 1, maxDepth)) {
            assert EntryYields(es[0], path, depth, maxDepth, v);
          } else {
            var k :| 0 <= k < |es[1..]| && EntryYields(es[1..][k], path, depth, maxDepth, v);
            assert EntryYields(es[k + 1], path, depth, maxDepth, v);
          }
        }
      }
    }
  }

  /**
   * A found environment lies strictly below the listed directory, at most
   * `maxDepth - depth + 1` levels below it, and its project name is the name
   * of the directory that contains it.
   */
  lemma {:induction false} FoundByBounds(d: Dir, path: Path, depth: int, maxDepth: int, v: Venv)
    requires FoundBy(d, path, depth, maxDepth, v)
    ensures IsPrefix(path, v.path)
    ensures |path| + 1 <= |v.path| <= |path| + (maxDepth - depth) + 1
    ensures v.projectName == Basename(Dirname(v.path))
    decreases d
  {
    var k :| 0 <= k < |d.children| && EntryYields(d.children[k], path, depth, maxDepth, v);
    var e := d.children[k];
    var p := Join(path, e.name);
    if e.hasMarker {
      DirnameJoin(path, e.name);
    } else {
      FoundByBounds(e, p, depth + 1, maxDepth, v);
      assert v.path[..|path|] == v.path[..|p|][..|path|];
    }
  }

  /**
   * `v` is reported by the listing of `d` at `path`, early return included:
   * `d` is within the depth bound and can be listed, and some entry that
   * comes before every entry holding the marker either holds the marker
   * itself (then `v` is that entry, named after `d`) or reports `v` in its
   * own listing one level deeper. Unlike `FoundBy`, entries after the
   * first marked one contribute nothing.
   */
  ghost predicate FirstFoundBy(d: Dir, path: Path, depth: int, maxDepth: int, v: Venv)
    decreases d, 0
  {
    && depth <= maxDepth
    && d.readable
    && FirstInListing(d.children, path, depth, maxDepth, v)
  }

  /** Some entry of the listing `es`, no later than its first marked entry, yields `v`. */
  ghost predicate FirstInListing(es: seq<Dir>, path: Path, depth: int, maxDepth: int, v: Venv)
    decreases es, 0
  {
    exists k :: 0 <= k < |es| && (forall j :: 0 <= j < k ==> !es[j].hasMarker)
      && FirstEntryYields(es[k], path, depth, maxDepth, v)
  }

  ghost predicate FirstEntryYields(e: Dir, path: Path, depth: int, maxDepth: int, v: Venv)
    decreases e, 1
  {
    if e.hasMarker then v == Venv(Basename(path), Join(path, e.name))
    else FirstFoundBy(e, Join(path, e.name), depth + 1, maxDepth, v)
  }

  /** The scan of `d` reports exactly the environments `FirstFoundBy` describes. */
  lemma {:induction false} TraceReportsIff(d: Dir, path: Path, depth: int, maxDepth: int)
    ensures forall v :: v in Reports(Trace(d, path, depth, maxDepth)) <==> FirstFoundBy(d, path, depth, maxDepth, v)
    decreases d, 1
  {
    if depth <= maxDepth {
      if !d.readable {
        ReportsSingle(Deny(path));
      } else {
        EntriesReportsIff(d.children, path, depth, maxDepth);
      }
    }
  }

  lemma {:induction false} EntriesReportsIff(es: seq<Dir>, path: Path, depth: int, maxDepth: int)
    ensures forall v :: v in Reports(TraceEntries(es, path, depth, maxDepth)) <==> FirstInListing(es, path, depth, maxDepth, v)
    decreases es, 0
  {
    if es == [] {
      assert Reports(TraceEntries(es, path, depth, maxDepth)) == [];
    } else if es[0].hasMarker {
      var p := Join(path, es[0].name);
      LoneMarkedEntryReports(path, es[0], depth, maxDepth);
      ListingStopsAtVenv(es, 0, path, depth, maxDepth);
      assert es[..1] == [es[0]];
      forall v
        ensures v in Reports(TraceEntries(es, path, depth, maxDepth)) <==> FirstInListing(es, path, depth, maxDepth, v)
      {
        FirstInListingMarked(es, path, depth, maxDepth, v);
      }
    } else {
      var p := Join(path, es[0].name);
      EntryReports(es, path, depth, maxDepth);
      TraceReportsIff(es[0], p, depth + 1, maxDepth);
      EntriesReportsIff(es[1..], path, depth, maxDepth);
      forall v
        ensures v in Reports(TraceEntries(es, path, depth, maxDepth)) <==> FirstInListing(es, path, depth, maxDepth, v)
      {
        FirstInListingUnmarked(es, path, depth, maxDepth, v);
      }
    }
  }

  /** A listing that starts with a marked entry yields only that entry. */
  lemma {:induction false} FirstInListingMarked(es: seq<Dir>, path: Path, depth: int, maxDepth: int, v: Venv)
    requires es != [] && es[0].hasMarker
    ensures FirstInListing(es, path, depth, maxDepth, v) <==> v == Venv(Basename(path), Join(path, es[0].name))
  {
    if FirstInListing(es, path, depth, maxDepth, v) {
      var k :| 0 <= k < |es| && (forall j :: 0 <= j < k ==> !es[j].hasMarker)
        && FirstEntryYields(es[k], path, depth, maxDepth, v);
      assert k == 0;
    }
    if v == Venv(Basename(path), Join(path, es[0].name)) {
      assert FirstEntryYields(es[0], path, depth, maxDepth, v);
    }
  }

  /** A listing that starts with an unmarked entry yields what that entry yields, then what the rest yields. */
  lemma {:induction false} FirstInListingUnmarked(es: seq<Dir>, path: Path, depth: int, maxDepth: int, v: Venv)
    requires es != [] && !es[0].hasMarker
    ensures FirstInListing(es, path, depth, maxDepth, v)
       <==> FirstFoundBy(es[0], Join(path, es[0].name), depth + 1, maxDepth, v) || FirstInListing(es[1..], path, depth, maxDepth, v)
  {
    if FirstFoundBy(es[0], Join(path, es[0].name), depth + 1, maxDepth, v) {
      assert FirstEntryYields(es[0], path, depth, maxDepth, v);
    }
    if FirstInListing(es[1..], path, depth, maxDepth, v) {
      var k :| 0 <= k < |es[1..]| && (forall j :: 0 <= j < k ==> !es[1..][j].hasMarker)
        && FirstEntryYields(es[1..][k], path, depth, maxDepth, v);
      forall j | 0 <= j < k + 1
        ensures !es[j].hasMarker
      {
        if j > 0 {
          assert es[j] == es[1..][j - 1];
        }
      }
      assert FirstEntryYields(es[k + 1], path, depth, maxDepth, v);
    }
    if FirstInListing(es, path, depth, maxDepth, v) {
      var k :| 0 <= k < |es| && (forall j :: 0 <= j < k ==> !es[j].hasMarker)
        && FirstEntryYields(es[k], path, depth, maxDepth, v);
      if k > 0 {
        forall j | 0 <= j < k - 1
          ensures !es[1..][j].hasMarker
        {
          assert es[1..][j] == es[j + 1];
        }
        assert es[1..][k - 1] == es[k];
      }
    }
  }

  /**
   * In every listing the scan reaches, the first entry holding the marker
   * is reported, named after the listed directory.
   */
  lemma {:induction false} FirstMarkedReported(es: seq<Dir>, k: nat, path: Path, depth: int, maxDepth: int)
    requires k < |es| && es[k].hasMarker
    requires forall j :: 0 <= j < k ==> !es[j].hasMarker
    ensures Venv(Basename(path), Join(path, es[k].name)) in Reports(TraceEntries(es, path, depth, maxDepth))
  {
    EntriesReportsIff(es, path, depth, maxDepth);
    assert FirstEntryYields(es[k], path, depth, maxDepth, Venv(Basename(path), Join(path, es[k].name)));
  }

  /**
   * The whole run: with an existing search path, the environments handed
   * to `finished` are exactly those `FirstFoundBy` describes from the root;
   * each is also found by the plain listing rule, lies 1 to `maxDepth + 1`
   * levels below the search path (so the root itself is never reported),
   * and is named after the directory containing it.
   */
  lemma {:induction false} FindSound(root: Dir, searchPath: Path, maxDepth: int)
    ensures Find(Some(root), searchPath, maxDepth).Success?
    ensures forall v :: v in Find(Some(root), searchPath, maxDepth).value <==> FirstFoundBy(root, searchPath, 0, maxDepth, v)
    ensures forall v :: v in Find(Some(root), searchPath, maxDepth).value ==>
      && FoundBy(root, searchPath, 0, maxDepth, v)
      && IsPrefix(searchPath, v.path)
      && |searchPath| + 1 <= |v.path| <= |searchPath| + maxDepth + 1
      && v.projectName == Basename(Dirname(v.path))
  {
    var t := Trace(root, searchPath, 0, maxDepth);
    ApplyVenvs(InitialState(searchPath), t);
    TraceSound(root, searchPath, 0, maxDepth);
    TraceReportsIff(root, searchPath, 0, maxDepth);
    forall v | v in Find(Some(root), searchPath, maxDepth).value
      ensures FoundBy(root, searchPath, 0, maxDepth, v)
      ensures IsPrefix(searchPath, v.path)
      ensures |searchPath| + 1 <= |v.path| <= |searchPath| + maxDepth + 1
      ensures v.projectName == Basename(Dirname(v.path))
    {
      FoundByBounds(root, searchPath, 0, maxDepth, v);
    }
  }

  // ---------------------------------------------------------------------
  // The early return: one environment per listing
  // ---------------------------------------------------------------------

  /**
   * Once an entry holding the marker is met, the listing ends: the entries
   * after it are never counted, logged, checked or searched.
   */
  lemma {:induction false} ListingStopsAtVenv(es: seq<Dir>, k: nat, path: Path, depth: int, maxDepth: int)
    requires k < |es| && es[k].hasMarker
    ensures TraceEntries(es, path, depth, maxDepth) == TraceEntries(es[..k + 1], path, depth, maxDepth)
    decreases k
  {
    assert es[..k + 1][0] == es[0];
    if !es[0].hasMarker {
      assert es[..k + 1][1..] == es[1..][..k];
      ListingStopsAtVenv(es[1..], k - 1, path, depth, maxDepth);
    }
  }

  /** Whatever the scan of a searched entry reports lies at least two levels below the listed directory. */
  lemma {:induction false} SearchedEntryReportsDeep(e: Dir, path: Path, depth: int, maxDepth: int)
    ensures var inner := Reports(Trace(e, Join(path, e.name), depth + 1, maxDepth));
      forall i :: 0 <= i < |inner| ==> |inner[i].path| >= |path| + 2
  {
    var p := Join(path, e.name);
    var inner := Reports(Trace(e, p, depth + 1, maxDepth));
    TraceSound(e, p, depth + 1, maxDepth);
    forall i | 0 <= i < |inner|
      ensures |inner[i].path| >= |path| + 2
    {
      assert inner[i] in inner;
      FoundByBounds(e, p, depth + 1, maxDepth, inner[i]);
    }
  }

  /**
   * Of the environments one listing reports, only the last can be a direct
   * entry of the listed directory; all earlier ones lie deeper. So each
   * listed directory contributes at most one environment of its own.
   */
  lemma {:induction false} OnlyLastIsDirect(es: seq<Dir>, path: Path, depth: int, maxDepth: int)
    ensures var r := Reports(TraceEntries(es, path, depth, maxDepth));
      forall i :: 0 <= i < |r| - 1 ==> |r[i].path| >= |path| + 2
    decreases es
  {
    if es != [] && !es[0].hasMarker {
      var p := Join(path, es[0].name);
      var inner := Reports(Trace(es[0], p, depth + 1, maxDepth));
      var later := Reports(TraceEntries(es[1..], path, depth, maxDepth));
      EntryReports(es, path, depth, maxDepth);
      OnlyLastIsDirect(es[1..], path, depth, maxDepth);
      SearchedEntryReportsDeep(es[0], path, depth, maxDepth);
      var r := inner + later;
      forall i | 0 <= i < |r| - 1
        ensures |r[i].path| >= |path| + 2
      {
        if i < |inner| {
          assert r[i] == inner[i];
        } else {
          assert r[i] == later[i - |inner|];
        }
      }
    } else if es != [] {
      var p := Join(path, es[0].name);
      var v := Venv(ProjectName(p), p);
      ReportsConcat([Enter(p)], [Report(v)]);
      ReportsSingle(Enter(p));
      ReportsSingle(Report(v));
      assert [Enter(p)] + [Report(v)] == [Enter(p), Report(v)];
    }
  }

  /**
   * The early return makes the result depend on listing order. Under `root`,
   * `a` holds the marker and so does `b/c`: listed as `a, b` the scan stops
   * at `a` and never looks into `b`; listed as `b, a` it finds both.
   */
  lemma {:induction false} ListingOrderDecides()
    ensures var a := Dir("a", true, true, []);
            var b := Dir("b", false, true, [Dir("c", true, true, [])]);
            && Find(Some(Dir("root", false, true, [a, b])), ["root"], DefaultMaxDepth)
               == Success([Venv("root", ["root", "a"])])
            && Find(Some(Dir("root", false, true, [b, a])), ["root"], DefaultMaxDepth)
               == Success([Venv("b", ["root", "b", "c"]), Venv("root", ["root", "a"])])
  {
    var a := Dir("a", true, true, []);
    var b := Dir("b", false, true, [Dir("c", true, true, [])]);
    var s0 := InitialState(["root"]);
    var ab, ba := Dir("root", false, true, [a, b]), Dir("root", false, true, [b, a]);
    var va, vc := Venv("root", ["root", "a"]), Venv("b", ["root", "b", "c"]);
    assert Trace(ab, ["root"], 0, DefaultMaxDepth) == TraceEntries([a, b], ["root"], 0, DefaultMaxDepth);
    assert Trace(ba, ["root"], 0, DefaultMaxDepth) == TraceEntries([b, a], ["root"], 0, DefaultMaxDepth);
    ApplyVenvs(s0, Trace(ab, ["root"], 0, DefaultMaxDepth));
    ApplyVenvs(s0, Trace(ba, ["root"], 0, DefaultMaxDepth));
    MarkedFirstReports();
    UnmarkedFirstReports();
    assert FinalState(Some(ab), ["root"], DefaultMaxDepth).venvs == [] + [va] == [va];
    assert FinalState(Some(ba), ["root"], DefaultMaxDepth).venvs == [] + [vc, va] == [vc, va];
  }

  /** A marked entry alone in a listing reports itself, named after the listed directory. */
  lemma {:induction false} LoneMarkedEntryReports(path: Path, e: Dir, depth: int, maxDepth: int)
    requires e.hasMarker
    ensures Reports(TraceEntries([e], path, depth, maxDepth))
         == [Venv(Basename(path), Join(path, e.name))]
  {
    var p := Join(path, e.name);
    var v := Venv(ProjectName(p), p);
    ReportsConcat([Enter(p)], [Report(v)]);
    ReportsSingle(Enter(p));
    ReportsSingle(Report(v));
    assert [Enter(p)] + [Report(v)] == [Enter(p), Report(v)];
    DirnameJoin(path, e.name);
  }

  /** Listed as `a, b`, the scan of `root` reports `a` only. */
  lemma {:induction false} MarkedFirstReports()
    ensures Reports(TraceEntries([Dir("a", true, true, []), Dir("b", false, true, [Dir("c", true, true, [])])],
                                 ["root"], 0, DefaultMaxDepth))
         == [Venv("root", ["root", "a"])]
  {
    var a := Dir("a", true, true, []);
    var b := Dir("b", false, true, [Dir("c", true, true, [])]);
    ListingStopsAtVenv([a, b], 0, ["root"], 0, DefaultMaxDepth);
    assert [a, b][..1] == [a];
    LoneMarkedEntryReports(["root"], a, 0, DefaultMaxDepth);
    assert Join(["root"], "a") == ["root", "a"];
  }

  /** Listed as `b, a`, the scan of `root` reports `b/c` and then `a`. */
  lemma {:induction false} UnmarkedFirstReports()
    ensures Reports(TraceEntries([Dir("b", false, true, [Dir("c", true, true, [])]), Dir("a", true, true, [])],
                                 ["root"], 0, DefaultMaxDepth))
         == [Venv("b", ["root", "b", "c"]), Venv("root", ["root", "a"])]
  {
    var a := Dir("a", true, true, []);
    var c := Dir("c", true, true, []);
    var b := Dir("b", false, true, [c]);
    EntryReports([b, a], ["root"], 0, DefaultMaxDepth);
    assert [b, a][1..] == [a];
    assert Join(["root"], "b") == ["root", "b"];
    LoneMarkedEntryReports(["root", "b"], c, 1, DefaultMaxDepth);
    assert Join(["root", "b"], "c") == ["root", "b", "c"];
    assert Reports(Trace(b, ["root", "b"], 1, DefaultMaxDepth)) == [Venv("b", ["root", "b", "c"])];
    LoneMarkedEntryReports(["root"], a, 0, DefaultMaxDepth);
    assert Join(["root"], "a") == ["root", "a"];
  }

  // ---------------------------------------------------------------------
  // No environment is reported inside another
  // ---------------------------------------------------------------------

  /** Within every directory of the tree, the entries have distinct names, as on a real filesystem. */
  ghost predicate DistinctNames(d: Dir)
    decreases d, 1
  {
    DistinctListing(d.children)
  }

  ghost predicate DistinctListing(es: seq<Dir>)
    decreases es, 0
  {
    && (forall i, j :: 0 <= i < j < |es| ==> es[i].name != es[j].name)
    && (forall i :: 0 <= i < |es| ==> DistinctNames(es[i]))
  }

  /** No environment of `vs` lies strictly below another one. */
  predicate NotNested(vs: seq<Venv>)
  {
    forall v, w :: v in vs && w in vs ==> !IsStrictPrefix(v.path, w.path)
  }

  /** What the scan of `d` at `p` reports lies strictly below `p`. */
  lemma {:induction false} ReportUnderTrace(d: Dir, p: Path, depth: int, maxDepth: int, v: Venv)
    requires v in Reports(Trace(d, p, depth, maxDepth))
    ensures |v.path| > |p| && v.path[..|p|] == p
  {
    TraceSound(d, p, depth, maxDepth);
    FoundByBounds(d, p, depth, maxDepth, v);
  }

  /** What a listing at `path` reports lies strictly below `path`, under one of the listing's entries. */
  lemma {:induction false} ReportUnderEntry(es: seq<Dir>, path: Path, depth: int, maxDepth: int, v: Venv)
    requires v in Reports(TraceEntries(es, path, depth, maxDepth))
    ensures |v.path| > |path| && exists k :: 0 <= k < |es| && v.path[|path|] == es[k].name
  {
    EntriesSound(es, path, depth, maxDepth);
    var k :| 0 <= k < |es| && EntryYields(es[k], path, depth, maxDepth, v);
    var p := Join(path, es[k].name);
    if !es[k].hasMarker {
      FoundByBounds(es[k], p, depth + 1, maxDepth, v);
      assert v.path[|path|] == v.path[..|p|][|path|];
    }
  }

  /**
   * With distinct entry names, the scan never reports an environment that
   * lies inside another reported one: it does not look into a reported
   * entry (the early `return`), and reports from different entries lie on
   * separate branches.
   */
  lemma {:induction false} TraceNotNested(d: Dir, path: Path, depth: int, maxDepth: int)
    requires DistinctNames(d)
    ensures NotNested(Reports(Trace(d, path, depth, maxDepth)))
    decreases d, 1
  {
    if depth <= maxDepth {
      if !d.readable {
        ReportsSingle(Deny(path));
      } else {
        EntriesNotNested(d.children, path, depth, maxDepth);
      }
    }
  }

  lemma {:induction false} EntriesNotNested(es: seq<Dir>, path: Path, depth: int, maxDepth: int)
    requires DistinctListing(es)
    ensures NotNested(Reports(TraceEntries(es, path, depth, maxDepth)))
    decreases es, 0
  {
    if es == [] {
      assert Reports(TraceEntries(es, path, depth, maxDepth)) == [];
    } else if es[0].hasMarker {
      LoneMarkedEntryReports(path, es[0], depth, maxDepth);
      ListingStopsAtVenv(es, 0, path, depth, maxDepth);
      assert es[..1] == [es[0]];
    } else {
      var p := Join(path, es[0].name);
      var inner := Reports(Trace(es[0], p, depth + 1, maxDepth));
      var later := Reports(TraceEntries(es[1..], path, depth, maxDepth));
      EntryReports(es, path, depth, maxDepth);
      assert DistinctListing(es[1..]) by {
        forall i, j | 0 <= i < j < |es[1..]|
          ensures es[1..][i].name != es[1..][j].name
        {
          assert es[1..][i] == es[i + 1] && es[1..][j] == es[j + 1];
        }
      }
      TraceNotNested(es[0], p, depth + 1, maxDepth);
      EntriesNotNested(es[1..], path, depth, maxDepth);
      forall v: Venv, w: Venv | v in inner + later && w in inner + later
        ensures !IsStrictPrefix(v.path, w.path)
      {
        if v in inner && w in later {
          InnerLaterApart(es, path, depth, maxDepth, v, w);
        } else if v in later && w in inner {
          InnerLaterApart(es, path, depth, maxDepth, w, v);
        }
      }
    }
  }

  /** A report from the first entry's scan and one from a later entry lie on separate branches. */
  lemma {:induction false} InnerLaterApart(es: seq<Dir>, path: Path, depth: int, maxDepth: int, v: Venv, w: Venv)
    requires es != [] && DistinctListing(es)
    requires v in Reports(Trace(es[0], Join(path, es[0].name), depth + 1, maxDepth))
    requires w in Reports(TraceEntries(es[1..], path, depth, maxDepth))
    ensures !IsStrictPrefix(v.path, w.path) && !IsStrictPrefix(w.path, v.path)
  {
    var p := Join(path, es[0].name);
    ReportUnderTrace(es[0], p, depth + 1, maxDepth, v);
    assert v.path[|path|] == v.path[..|p|][|path|] == es[0].name;
    ReportUnderEntry(es[1..], path, depth, maxDepth, w);
    var k :| 0 <= k < |es[1..]| && w.path[|path|] == es[1..][k].name;
    assert es[1..][k] == es[k + 1];
    DivergeNotNested(v.path, w.path, |path|);
  }

  /**
   * The whole run: on a tree with distinct entry names, no environment
   * handed to `finished` lies inside another one.
   */
  lemma {:induction false} FindNotNested(root: Dir, searchPath: Path, maxDepth: int)
    requires DistinctNames(root)
    ensures Find(Some(root), searchPath, maxDepth).Success?
    ensures NotNested(Find(Some(root), searchPath, maxDepth).value)
  {
    ApplyVenvs(InitialState(searchPath), Trace(root, searchPath, 0, maxDepth));
    TraceNotNested(root, searchPath, 0, maxDepth);
  }

  // ---------------------------------------------------------------------
  // Depth bound on everything the scan touches
  // ---------------------------------------------------------------------

  /**
   * A step taken by `search_directory(path, depth)` stays under `path`:
   * entries it examines or reports lie 1 to `maxDepth - depth + 1` levels
   * below, and a directory whose listing is refused lies at most
   * `maxDepth - depth` levels below.
   */
  ghost predicate StepWithin(step: Step, path: Path, depth: int, maxDepth: int)
  {
    match step
    case Enter(p) => IsPrefix(path, p) && |path| < |p| <= |path| + (maxDepth - depth) + 1
    case Report(v) => IsPrefix(path, v.path) && |path| < |v.path| <= |path| + (maxDepth - depth) + 1
    case Deny(p) => IsPrefix(path, p) && |p| <= |path| + (maxDepth - depth)
    case Leave => true
  }

  lemma {:induction false} StepWithinParent(step: Step, path: Path, name: string, depth: int, maxDepth: int)
    requires StepWithin(step, Join(path, name), depth + 1, maxDepth)
    ensures StepWithin(step, path, depth, maxDepth)
  {
    var p := Join(path, name);
    match step
    case Enter(q) => assert q[..|path|] == q[..|p|][..|path|];
    case Report(v) => assert v.path[..|path|] == v.path[..|p|][..|path|];
    case Deny(q) => assert q[..|path|] == q[..|p|][..|path|];
    case Leave =>
  }

  /**
   * No directory deeper than `maxDepth` below the search path is ever listed:
   * every entry examined lies at most `maxDepth + 1` levels down.
   */
  lemma {:induction false} TraceWithinDepth(d: Dir, path: Path, depth: int, maxDepth: int)
    ensures forall i :: 0 <= i < |Trace(d, path, depth, maxDepth)| ==>
      StepWithin(Trace(d, path, depth, maxDepth)[i], path, depth, maxDepth)
    decreases d, 1
  {
    if depth <= maxDepth && d.readable {
      EntriesWithinDepth(d.children, path, depth, maxDepth);
    }
  }

  lemma {:induction false} EntriesWithinDepth(es: seq<Dir>, path: Path, depth: int, maxDepth: int)
    requires depth <= maxDepth
    ensures forall i :: 0 <= i < |TraceEntries(es, path, depth, maxDepth)| ==>
      StepWithin(TraceEntries(es, path, depth, maxDepth)[i], path, depth, maxDepth)
    decreases es, 0
  {
    if es != [] && !es[0].hasMarker {
      var p := Join(path, es[0].name);
      var t := Trace(es[0], p, depth + 1, maxDepth);
      var rest := TraceEntries(es[1..], path, depth, maxDepth);
      TraceWithinDepth(es[0], p, depth + 1, maxDepth);
      EntriesWithinDepth(es[1..], path, depth, maxDepth);
      var all := [Enter(p)] + t + [Leave] + rest;
      forall i | 0 <= i < |all|
        ensures StepWithin(all[i], path, depth, maxDepth)
      {
        if 1 <= i < 1 + |t| {
          assert all[i] == t[i - 1];
          StepWithinParent(t[i - 1], path, es[0].name, depth, maxDepth);
        } else if i >= 2 + |t| {
          assert all[i] == rest[i - 2 - |t|];
        }
      }
    }
  }

  // ---------------------------------------------------------------------
  // Unreadable directories
  // ---------------------------------------------------------------------

  /**
   * An entry whose listing raises `PermissionError` is counted once in
   * `total_dirs` and once in `found_dirs`, adds no environment and nothing
   * below it, logs the refusal, and the scan goes on with its next sibling.
   */
  lemma {:induction false} UnreadableEntrySkipped(es: seq<Dir>, path: Path, depth: int, maxDepth: int, s: ScanState)
    requires es != [] && !es[0].hasMarker && !es[0].readable && depth < maxDepth
    ensures var p := Join(path, es[0].name);
      Apply(s, TraceEntries(es, path, depth, maxDepth))
      == Apply(s.(totalDirs := s.totalDirs + 1, foundDirs := s.foundDirs + 1,
                  emitted := s.emitted + [LogScanning(p), LogDenied(p), Progress(s.foundDirs + 1, s.totalDirs + 1)]),
               TraceEntries(es[1..], path, depth, maxDepth))
  {
    var p := Join(path, es[0].name);
    var rest := TraceEntries(es[1..], path, depth, maxDepth);
    var t := Trace(es[0], p, depth + 1, maxDepth);
    var enter, leave := [Enter(p)], [Leave];
    assert t == [Deny(p)];
    assert TraceEntries(es, path, depth, maxDepth) == enter + t + leave + rest;
    ApplyConcat(s, enter + t + leave, rest);
    ApplyConcat(s, enter + t, leave);
    ApplyConcat(s, enter, t);
    var s1 := Exec(s, Enter(p));
    var s2 := Exec(s1, Deny(p));
    ApplyOne(s, Enter(p));
    ApplyOne(s1, Deny(p));
    ApplyOne(s2, Leave);
    assert s.emitted + [LogScanning(p)] + [LogDenied(p)] + [Progress(s.foundDirs + 1, s.totalDirs + 1)]
        == s.emitted + [LogScanning(p), LogDenied(p), Progress(s.foundDirs + 1, s.totalDirs + 1)];
  }

  // ---------------------------------------------------------------------
  // Larger depth bounds
  // ---------------------------------------------------------------------

  /** `a` can be obtained from `b` by deleting elements. */
  predicate IsSubseq<T(==)>(a: seq<T>, b: seq<T>)
    decreases |b|
  {
    a == [] || (b != [] && ((a[0] == b[0] && IsSubseq(a[1..], b[1..])) || IsSubseq(a, b[1..])))
  }

  lemma {:induction false} SubseqRefl<T>(a: seq<T>)
    ensures IsSubseq(a, a)
    decreases |a|
  {
    if a != [] {
      SubseqRefl(a[1..]);
    }
  }

  lemma {:induction false} SubseqPrepend<T>(a: seq<T>, b: seq<T>, c: seq<T>)
    requires IsSubseq(a, b)
    ensures IsSubseq(a, c + b)
    decreases |c|
  {
    if c != [] {
      assert (c + b)[1..] == c[1..] + b;
      SubseqPrepend(a, b, c[1..]);
    } else {
      assert c + b == b;
    }
  }

  lemma {:induction false} SubseqConcat<T>(a1: seq<T>, b1: seq<T>, a2: seq<T>, b2: seq<T>)
    requires IsSubseq(a1, b1) && IsSubseq(a2, b2)
    ensures IsSubseq(a1 + a2, b1 + b2)
    decreases |b1|
  {
    if a1 == [] {
      assert a1 + a2 == a2;
      SubseqPrepend(a2, b2, b1);
    } else {
      assert b1 != [];
      assert (b1 + b2)[0] == b1[0] && (b1 + b2)[1..] == b1[1..] + b2;
      assert (a1 + a2)[0] == a1[0] && (a1 + a2)[1..] == a1[1..] + a2;
      if a1[0] == b1[0] && IsSubseq(a1[1..], b1[1..]) {
        SubseqConcat(a1[1..], b1[1..], a2, b2);
      } else {
        SubseqConcat(a1, b1[1..], a2, b2);
      }
    }
  }

  lemma {:induction false} SubseqMember<T>(a: seq<T>, b: seq<T>, x: T)
    requires IsSubseq(a, b) && x in a
    ensures x in b
    decreases |b|
  {
    if a[0] == b[0] && IsSubseq(a[1..], b[1..]) {
      if x != a[0] {
        SubseqMember(a[1..], b[1..], x);
      }
    } else {
      SubseqMember(a, b[1..], x);
    }
  }

  /**
   * Raising the depth bound keeps every environment found before, in the
   * same relative order: the smaller run's results are a subsequence of the
   * larger run's.
   */
  lemma {:induction false} TraceMonotone(d: Dir, path: Path, depth: int, m1: int, m2: int)
    requires m1 <= m2
    ensures IsSubseq(Reports(Trace(d, path, depth, m1)), Reports(Trace(d, path, depth, m2)))
    decreases d, 1
  {
    if depth <= m1 && d.readable {
      EntriesMonotone(d.children, path, depth, m1, m2);
    }
  }

  lemma {:induction false} EntriesMonotone(es: seq<Dir>, path: Path, depth: int, m1: int, m2: int)
    requires m1 <= m2
    ensures IsSubseq(Reports(TraceEntries(es, path, depth, m1)), Reports(TraceEntries(es, path, depth, m2)))
    decreases es, 0
  {
    if es != [] {
      if es[0].hasMarker {
        SubseqRefl(Reports(TraceEntries(es, path, depth, m1)));
      } else {
        var p := Join(path, es[0].name);
        EntryReports(es, path, depth, m1);
        EntryReports(es, path, depth, m2);
        TraceMonotone(es[0], p, depth + 1, m1, m2);
        EntriesMonotone(es[1..], path, depth, m1, m2);
        SubseqConcat(Reports(Trace(es[0], p, depth + 1, m1)), Reports(Trace(es[0], p, depth + 1, m2)),
                     Reports(TraceEntries(es[1..], path, depth, m1)), Reports(TraceEntries(es[1..], path, depth, m2)));
      }
    }
  }

  /** `Run` with a larger `maxDepth` on the same tree reports everything a smaller one does. */
  lemma {:induction false} FindMonotone(root: Dir, searchPath: Path, m1: int, m2: int)
    requires m1 <= m2
    ensures IsSubseq(Find(Some(root), searchPath, m1).value, Find(Some(root), searchPath, m2).value)
    ensures forall v :: v in Find(Some(root), searchPath, m1).value ==> v in Find(Some(root), searchPath, m2).value
  {
    var s0 := InitialState(searchPath);
    ApplyVenvs(s0, Trace(root, searchPath, 0, m1));
    ApplyVenvs(s0, Trace(root, searchPath, 0, m2));
    TraceMonotone(root, searchPath, 0, m1, m2);
    var small := Find(Some(root), searchPath, m1).value;
    var large := Find(Some(root), searchPath, m2).value;
    assert small == Reports(Trace(root, searchPath, 0, m1));
    assert large == Reports(Trace(root, searchPath, 0, m2));
    forall v | v in small
      ensures v in large
    {
      SubseqMember(small, large, v);
    }
  }
}
