/**
 * The virtual-environment finder of `FindVenvsThread.run`: a depth-bounded,
 * depth-first scan of a directory tree that reports every directory entry
 * holding a `pyvenv.cfg` marker, together with the name of the directory
 * whose listing contained it.
 *
 * The filesystem is a finite tree of directories. The scan's behaviour is
 * given twice: `Trace` lists, in order, the steps one call of the nested
 * `search_directory` takes (the pure specification), and `SearchDirectory`
 * performs them on the counters, the result list and the emitted signals,
 * the way the Python closure updates its `nonlocal` variables.
 */
module Finder {
  import opened Wrappers
  import opened Paths

  /** `FindVenvsThread.__init__`'s default depth bound. */
  const DefaultMaxDepth: int := 3

  /**
   * A directory: its entry name, whether a `pyvenv.cfg` file sits directly
   * inside it, whether listing it succeeds (false when `os.scandir` raises
   * `PermissionError`), and its subdirectories in `os.scandir` order.
   * Plain files other than the marker play no part in the scan.
   */
  datatype Dir = Dir(name: string, hasMarker: bool, readable: bool, children: seq<Dir>)

  /** One reported environment: `(project_name, entry.path)`. */
  datatype Venv = Venv(projectName: string, path: Path)

  /** What the thread emits: its `log`, `progress` and `finished` signals. */
  datatype Signal =
    | LogScanning(path: Path)
    | LogFound(venv: Venv)
    | LogDenied(path: Path)
    | Progress(found: nat, total: nat)
    | Finished(venvs: seq<Venv>)

  /**
   * The percentage a progress signal carries, `found_dirs / total_dirs * 100`
   * truncated, computed exactly (the Python value is a float).
   */
  function Percent(found: nat, total: nat): (p: nat)
    requires 0 < total && found <= total
    ensures p <= 100
    ensures p == 100 <==> found == total
  {
    PercentBounds(found, total);
    found * 100 / total
  }

  /** Truncated division of `found * 100` by `total` reaches 100 only at `found == total`. */
  lemma {:induction false} PercentBounds(found: nat, total: nat)
    requires 0 < total && found <= total
    ensures found * 100 / total <= 100
    ensures found * 100 / total == 100 <==> found == total
  {
    var n := found * 100;
    var q := n / total;
    var m := n % total;
    assert n == q * total + m && 0 <= m < total;
    assert (q - 100) * total <= 0;
    assert q <= 100;
    if found == total {
      assert (100 - q) * total == m;
      assert q == 100;
    } else {
      assert (100 - q) * total >= 100 + m;
      assert q < 100;
    }
  }

  /** The variables of `run` that `search_directory` updates, and the signals emitted so far. */
  datatype ScanState = ScanState(venvs: seq<Venv>, totalDirs: nat, foundDirs: nat, emitted: seq<Signal>)

  /**
   * One step of the scan: an entry is counted and announced (`Enter`), an
   * environment is recorded (`Report`), an entry that was searched is
   * finished and progress is emitted (`Leave`), or a listing is refused (`Deny`).
   */
  datatype Step = Enter(path: Path) | Report(venv: Venv) | Leave | Deny(path: Path)

  /** `os.scandir` on a search path that names no directory raises; nothing catches it. */
  datatype FindError = NotADirectory(path: Path)

  /** `os.path.basename(os.path.dirname(entry.path))`. */
  function ProjectName(entryPath: Path): (r: string)
    ensures |entryPath| >= 2 ==> r == entryPath[|entryPath| - 2]
    ensures |entryPath| < 2 ==> r == ""
  {
    Basename(Dirname(entryPath))
  }

  /**
   * The steps of `search_directory(path, depth)` on directory `d`. A call
   * takes no step exactly when it is past the depth bound or lists an empty
   * directory, and a refused listing is its only step.
   */
  function Trace(d: Dir, path: Path, depth: int, maxDepth: int): (r: seq<Step>)
    ensures |r| == 0 <==> depth > maxDepth || (d.readable && |d.children| == 0)
    ensures |r| > 0 && r[0] == Deny(path) <==> depth <= maxDepth && !d.readable
    ensures depth <= maxDepth && !d.readable ==> |r| == 1
    decreases d, 1
  {
    if depth > maxDepth then []
    else if !d.readable then [Deny(path)]
    else TraceEntries(d.children, path, depth, maxDepth)
  }

  /**
   * The steps of the `for` loop over the entries `es` of the directory at
   * `path`. A marked entry ends the whole listing (the early `return`).
   * Each entry is counted first, so a listing takes a step exactly when it
   * has an entry, and its first step counts its first entry.
   */
  function TraceEntries(es: seq<Dir>, path: Path, depth: int, maxDepth: int): (r: seq<Step>)
    ensures |r| == 0 <==> |es| == 0
    ensures |es| > 0 ==> r[0] == Enter(Join(path, es[0].name))
    decreases es, 0
  {
    if es == [] then []
    else
      var entryPath := Join(path, es[0].name);
      if es[0].hasMarker then
        [Enter(entryPath), Report(Venv(ProjectName(entryPath), entryPath))]
      else
        [Enter(entryPath)] + Trace(es[0], entryPath, depth + 1, maxDepth) + [Leave]
        + TraceEntries(es[1..], path, depth, maxDepth)
  }

  /**
   * The effect of one step on the scan's variables and signals: every step
   * emits exactly one signal (a scanning, found, progress or denied log for
   * entering, reporting, finishing and refusing); only counting an entry raises `total_dirs`,
   * only finishing one raises `found_dirs`, only a report grows `venvs`, and
   * a progress signal carries the counters as they are after the increment.
   */
  function Exec(s: ScanState, step: Step): (r: ScanState)
    ensures |r.emitted| == |s.emitted| + 1 && forall i :: 0 <= i < |s.emitted| ==> r.emitted[i] == s.emitted[i]
    ensures r.totalDirs == s.totalDirs + (if step.Enter? then 1 else 0)
    ensures r.foundDirs == s.foundDirs + (if step.Leave? then 1 else 0)
    ensures |r.venvs| == |s.venvs| + (if step.Report? then 1 else 0)
    ensures forall i :: 0 <= i < |s.venvs| ==> r.venvs[i] == s.venvs[i]
    ensures step.Report? ==> r.venvs[|s.venvs|] == step.venv && r.emitted[|s.emitted|] == LogFound(step.venv)
    ensures step.Enter? ==> r.emitted[|s.emitted|] == LogScanning(step.path)
    ensures step.Leave? ==> r.emitted[|s.emitted|] == Progress(r.foundDirs, r.totalDirs)
    ensures step.Deny? ==> r.emitted[|s.emitted|] == LogDenied(step.path)
  {
    match step
    case Enter(p) => s.(totalDirs := s.totalDirs + 1, emitted := s.emitted + [LogScanning(p)])
    case Report(v) => s.(venvs := s.venvs + [v], emitted := s.emitted + [LogFound(v)])
    case Leave => s.(foundDirs := s.foundDirs + 1, emitted := s.emitted + [Progress(s.foundDirs + 1, s.totalDirs)])
    case Deny(p) => s.(emitted := s.emitted + [LogDenied(p)])
  }

  /** The effect of a sequence of steps, in order. */
  function Apply(s: ScanState, steps: seq<Step>): ScanState
    decreases |steps|
  {
    if steps == [] then s else Apply(Exec(s, steps[0]), steps[1..])
  }

  /** Performing two runs of steps one after the other. */
  lemma {:induction false} ApplyConcat(s: ScanState, a: seq<Step>, b: seq<Step>)
    ensures Apply(s, a + b) == Apply(Apply(s, a), b)
    decreases |a|
  {
    if a == [] {
      assert a + b == b;
    } else {
      assert (a + b)[0] == a[0];
      assert (a + b)[1..] == a[1..] + b;
      ApplyConcat(Exec(s, a[0]), a[1..], b);
    }
  }

  /** Performing a single step. */
  lemma {:induction false} ApplyOne(s: ScanState, x: Step)
    ensures Apply(s, [x]) == Exec(s, x)
  {
    assert [x][1..] == [];
  }

  /** Performing two steps. */
  lemma {:induction false} ApplyTwo(s: ScanState, x: Step, y: Step)
    ensures Apply(s, [x, y]) == Exec(Exec(s, x), y)
  {
    assert [x, y][1..] == [y];
    ApplyOne(Exec(s, x), y);
  }

  /** Counting an entry, scanning below it, finishing it, then the rest of the listing. */
  lemma {:induction false} SearchedEntrySteps(s: ScanState, p: Path, inner: seq<Step>, rest: seq<Step>)
    ensures Apply(s, [Enter(p)] + inner + [Leave] + rest)
         == Apply(Exec(Apply(Exec(s, Enter(p)), inner), Leave), rest)
  {
    ApplyConcat(s, [Enter(p)] + inner + [Leave], rest);
    ApplyConcat(s, [Enter(p)] + inner, [Leave]);
    ApplyConcat(s, [Enter(p)], inner);
    ApplyOne(s, Enter(p));
    ApplyOne(Apply(Exec(s, Enter(p)), inner), Leave);
  }

  /** A listing whose first entry holds the marker ends after that entry's two steps. */
  lemma {:induction false} MarkedEntryStep(es: seq<Dir>, path: Path, depth: int, maxDepth: int, s: ScanState)
    requires es != [] && es[0].hasMarker
    ensures var p := Join(path, es[0].name);
            var v := Venv(ProjectName(p), p);
            (Apply(s, TraceEntries(es, path, depth, maxDepth))
             == s.(totalDirs := s.totalDirs + 1, venvs := s.venvs + [v],
                   emitted := s.emitted + [LogScanning(p), LogFound(v)]))
  {
    var p := Join(path, es[0].name);
    var v := Venv(ProjectName(p), p);
    assert TraceEntries(es, path, depth, maxDepth) == [Enter(p), Report(v)];
    ApplyTwo(s, Enter(p), Report(v));
    assert s.emitted + [LogScanning(p)] + [LogFound(v)] == s.emitted + [LogScanning(p), LogFound(v)];
  }

  /**
   * A listing whose first entry holds no marker: count the entry, scan it,
   * finish it, then go on with the rest of the listing.
   */
  lemma {:induction false} SearchedEntryStep(es: seq<Dir>, path: Path, depth: int, maxDepth: int, s: ScanState, t: ScanState)
    requires es != [] && !es[0].hasMarker
    requires var p := Join(path, es[0].name);
             t == Apply(s.(totalDirs := s.totalDirs + 1, emitted := s.emitted + [LogScanning(p)]),
                        Trace(es[0], p, depth + 1, maxDepth))
    ensures Apply(s, TraceEntries(es, path, depth, maxDepth))
         == Apply(t.(foundDirs := t.foundDirs + 1, emitted := t.emitted + [Progress(t.foundDirs + 1, t.totalDirs)]),
                  TraceEntries(es[1..], path, depth, maxDepth))
  {
    var p := Join(path, es[0].name);
    SearchedEntryTrace(es, path, depth, maxDepth);
    SearchedEntrySteps(s, p, Trace(es[0], p, depth + 1, maxDepth), TraceEntries(es[1..], path, depth, maxDepth));
    assert Exec(s, Enter(p)) == s.(totalDirs := s.totalDirs + 1, emitted := s.emitted + [LogScanning(p)]);
    assert Exec(t, Leave) == t.(foundDirs := t.foundDirs + 1, emitted := t.emitted + [Progress(t.foundDirs + 1, t.totalDirs)]);
  }

  /** The steps of a listing whose first entry holds no marker. */
  lemma {:induction false} SearchedEntryTrace(es: seq<Dir>, path: Path, depth: int, maxDepth: int)
    requires es != [] && !es[0].hasMarker
    ensures var p := Join(path, es[0].name);
            (TraceEntries(es, path, depth, maxDepth)
             == [Enter(p)] + Trace(es[0], p, depth + 1, maxDepth) + [Leave] + TraceEntries(es[1..], path, depth, maxDepth))
  {
  }

  /** The state `run` starts from, after logging the search path. */
  function InitialState(searchPath: Path): (r: ScanState)
    ensures r.totalDirs == r.foundDirs + |r.venvs| == 0
    ensures r.emitted == [LogScanning(searchPath)]
  {
    ScanState([], 0, 0, [LogScanning(searchPath)])
  }

  /** The state `run` ends in when `os.scandir` does not raise on the root. */
  function FinalState(root: Option<Dir>, searchPath: Path, maxDepth: int): ScanState
  {
    if root.None? then InitialState(searchPath)
    else Apply(InitialState(searchPath), Trace(root.value, searchPath, 0, maxDepth))
  }

  /**
   * What `run` hands to `finished`, or the error that escapes it: a search
   * path that names no directory fails as soon as it is listed, which the
   * depth check lets happen exactly when `maxDepth` is not negative.
   */
  function Find(root: Option<Dir>, searchPath: Path, maxDepth: int): (r: Result<seq<Venv>, FindError>)
    ensures r.Failure? <==> root.None? && 0 <= maxDepth
    ensures r.Failure? ==> r.error == NotADirectory(searchPath)
    ensures root.None? && r.Success? ==> r.value == []
  {
    if root.None? && 0 <= maxDepth then Failure(NotADirectory(searchPath))
    else Success(FinalState(root, searchPath, maxDepth).venvs)
  }

  /**
   * The nested `search_directory(path, depth)`: the scan variables come in
   * as `s` and go out as `r`, which is the specification's state after the
   * steps of `Trace`.
   */
  method SearchDirectory(d: Dir, path: Path, depth: int, maxDepth: int, s: ScanState) returns (r: ScanState)
    ensures r == Apply(s, Trace(d, path, depth, maxDepth))
    decreases d
  {
    r := s;
    if depth > maxDepth {
      return;
    }
    if !d.readable {
      r := r.(emitted := r.emitted + [LogDenied(path)]);
      ApplyOne(s, Deny(path));
      return;
    }
    var i := 0;
    while i < |d.children|
      invariant 0 <= i <= |d.children|
      invariant Apply(s, Trace(d, path, depth, maxDepth))
             == Apply(r, TraceEntries(d.children[i..], path, depth, maxDepth))
      decreases |d.children| - i
    {
      var entry := d.children[i];
      var entryPath := Join(path, entry.name);
      assert d.children[i..][0] == entry && d.children[i..][1..] == d.children[i + 1..];
      ghost var r0 := r;
      r := r.(totalDirs := r.totalDirs + 1, emitted := r.emitted + [LogScanning(entryPath)]);
      if entry.hasMarker {
        var v := Venv(ProjectName(entryPath), entryPath);
        r := r.(venvs := r.venvs + [v], emitted := r.emitted + [LogFound(v)]);
        MarkedEntryStep(d.children[i..], path, depth, maxDepth, r0);
        return;
      }
      r := SearchDirectory(entry, entryPath, depth + 1, maxDepth, r);
      SearchedEntryStep(d.children[i..], path, depth, maxDepth, r0, r);
      r := r.(foundDirs := r.foundDirs + 1, emitted := r.emitted + [Progress(r.foundDirs + 1, r.totalDirs)]);
      i := i + 1;
    }
  }

  /**
   * `FindVenvsThread.run`: log the search path, scan it at depth 0 and emit
   * `finished` with the environments found. When the search path names no
   * directory the error escapes before `finished` is emitted.
   */
  method Run(root: Option<Dir>, searchPath: Path, maxDepth: int)
    returns (outcome: Result<seq<Venv>, FindError>, emitted: seq<Signal>)
    ensures outcome == Find(root, searchPath, maxDepth)
    ensures outcome.Failure? ==> emitted == [LogScanning(searchPath)]
    ensures outcome.Success? ==>
      emitted == FinalState(root, searchPath, maxDepth).emitted + [Finished(outcome.value)]
  {
    var s := InitialState(searchPath);
    if 0 <= maxDepth && root.None? {
      outcome, emitted := Failure(NotADirectory(searchPath)), s.emitted;
      return;
    }
    if root.Some? {
      s := SearchDirectory(root.value, searchPath, 0, maxDepth, s);
    }
    outcome := Success(s.venvs);
    emitted := s.emitted + [Finished(s.venvs)];
  }
}
