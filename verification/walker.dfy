/** The two depth-first passes of `DirectoryAnalyzer` (src/analyzer.ts): the
    counting pass `countFiles` and the collecting pass `analyzeDirectory`, over
    an immutable directory tree. Both passes are sequential, so each is a
    recursive function; the collecting pass threads the analyser's fields
    through as an accumulator, in the order the source updates them.

    The reference point for both is `VisitsDir`, the list of folders and files
    the rules let through, in walk order. The counting pass is the number of
    file visits in it, and the collecting pass is a replay of it. */
module Walker {
  import opened Wrappers
  import opened Classifier
  import opened Exclusion
  import opened Records

  /** A directory entry: a directory, whose listing fails when it is not
      `readable`; a file, whose `fs.stat` fails when its size is `None`; or
      anything else (a symbolic link, a socket, ...), which both passes
      ignore. */
  datatype Node =
    | Dir(name: string, readable: bool, entries: seq<Node>)
    | File(name: string, size: Option<nat>)
    | Special(name: string)

  /** The options both passes share; `maxDepth` is the value after
      `options.maxDepth || -1`, where a negative bound means none. */
  datatype WalkOptions = WalkOptions(recursive: bool, excludePatterns: seq<string>, maxDepth: int)
  {
    predicate Valid() {
      ValidPatterns(excludePatterns)
    }

    /** A directory at this depth is not looked into. */
    predicate TooDeep(depth: nat) {
      maxDepth >= 0 && depth > maxDepth
    }
  }

  // ---------------------------------------------------------------------
  // What the rules let through
  // ---------------------------------------------------------------------

  /** A directory entry the walk passes: a subdirectory (at its own depth) or
      a file (at the depth of the directory holding it). */
  datatype Visit =
    | FolderVisit(path: string, name: string, depth: nat)
    | FileVisit(path: string, name: string, size: Option<nat>, depth: nat)

  /** The visits under a directory at `path` and `depth`, in walk order. */
  function VisitsDir(path: string, readable: bool, entries: seq<Node>, opts: WalkOptions, depth: nat): seq<Visit>
    requires opts.Valid()
    decreases entries, 1
  {
    if opts.TooDeep(depth) then []
    else if !readable then []
    else VisitsEntries(path, entries, opts, depth)
  }

  function VisitsEntries(path: string, es: seq<Node>, opts: WalkOptions, depth: nat): seq<Visit>
    requires opts.Valid()
    decreases es, 0
  {
    if |es| == 0 then [] else VisitsEntry(path, es[0], opts, depth) + VisitsEntries(path, es[1..], opts, depth)
  }

  function VisitsEntry(path: string, e: Node, opts: WalkOptions, depth: nat): seq<Visit>
    requires opts.Valid()
    decreases e, 2
  {
    match e
    case Dir(n, ok, cs) =>
      if ShouldExcludeDirectory(n, opts.excludePatterns) then []
      else
        var p := JoinPath(path, n);
        [FolderVisit(p, n, depth + 1)] + (if opts.recursive then VisitsDir(p, ok, cs, opts, depth + 1) else [])
    case File(n, size) =>
      if ShouldExcludeFile(n, opts.excludePatterns) then [] else [FileVisit(JoinPath(path, n), n, size, depth)]
    case Special(_) => []
  }

  // ---------------------------------------------------------------------
  // The counting pass
  // ---------------------------------------------------------------------

  /** `countFiles`: the files the collecting pass will try to stat. */
  function CountDir(readable: bool, entries: seq<Node>, opts: WalkOptions, depth: nat): nat
    requires opts.Valid()
    decreases entries, 1
  {
    if opts.TooDeep(depth) then 0
    else if !readable then 0
    else CountEntries(entries, opts, depth)
  }

  function CountEntries(es: seq<Node>, opts: WalkOptions, depth: nat): nat
    requires opts.Valid()
    decreases es, 0
  {
    if |es| == 0 then 0 else CountEntry(es[0], opts, depth) + CountEntries(es[1..], opts, depth)
  }

  function CountEntry(e: Node, opts: WalkOptions, depth: nat): nat
    requires opts.Valid()
    decreases e, 2
  {
    match e
    case Dir(n, ok, cs) =>
      if ShouldExcludeDirectory(n, opts.excludePatterns) then 0
      else if opts.recursive then CountDir(ok, cs, opts, depth + 1)
      else 0
    case File(n, _) => if ShouldExcludeFile(n, opts.excludePatterns) then 0 else 1
    case Special(_) => 0
  }

  function FileVisitCount(vs: seq<Visit>): nat {
    if |vs| == 0 then 0 else (if vs[0].FileVisit? then 1 else 0) + FileVisitCount(vs[1..])
  }

  lemma {:induction false} FileVisitCountConcat(a: seq<Visit>, b: seq<Visit>)
    ensures FileVisitCount(a + b) == FileVisitCount(a) + FileVisitCount(b)
  {
    if |a| > 0 {
      assert (a + b)[1..] == a[1..] + b;
      FileVisitCountConcat(a[1..], b);
    } else {
      assert a + b == b;
    }
  }

  /** The count is the number of files the rules let through. */
  lemma {:induction false} CountDirIsFileVisits(path: string, readable: bool, entries: seq<Node>, opts: WalkOptions, depth: nat)
    requires opts.Valid()
    ensures CountDir(readable, entries, opts, depth) == FileVisitCount(VisitsDir(path, readable, entries, opts, depth))
    decreases entries, 1
  {
    if !opts.TooDeep(depth) && readable {
      CountEntriesIsFileVisits(path, entries, opts, depth);
    }
  }

  lemma {:induction false} CountEntriesIsFileVisits(path: string, es: seq<Node>, opts: WalkOptions, depth: nat)
    requires opts.Valid()
    ensures CountEntries(es, opts, depth) == FileVisitCount(VisitsEntries(path, es, opts, depth))
    decreases es, 0
  {
    if |es| > 0 {
      CountEntryIsFileVisits(path, es[0], opts, depth);
      CountEntriesIsFileVisits(path, es[1..], opts, depth);
      FileVisitCountConcat(VisitsEntry(path, es[0], opts, depth), VisitsEntries(path, es[1..], opts, depth));
    }
  }

  lemma {:induction false} CountEntryIsFileVisits(path: string, e: Node, opts: WalkOptions, depth: nat)
    requires opts.Valid()
    ensures CountEntry(e, opts, depth) == FileVisitCount(VisitsEntry(path, e, opts, depth))
    decreases e, 2
  {
    match e
    case Dir(n, ok, cs) =>
      if !ShouldExcludeDirectory(n, opts.excludePatterns) {
        var p := JoinPath(path, n);
        var rest := if opts.recursive then VisitsDir(p, ok, cs, opts, depth + 1) else [];
        FileVisitCountConcat([FolderVisit(p, n, depth + 1)], rest);
        if opts.recursive {
          CountDirIsFileVisits(p, ok, cs, opts, depth + 1);
        }
      }
    case File(n, _) =>
    case Special(_) =>
  }

  // ---------------------------------------------------------------------
  // What the rules let through, in general
  // ---------------------------------------------------------------------

  /** A visit below a directory at `depth` obeys the exclusion, depth and
      recursion rules. */
  predicate VisitAllowed(v: Visit, opts: WalkOptions, depth: nat)
    requires opts.Valid()
  {
    match v
    case FolderVisit(_, n, d) =>
      && !ShouldExcludeDirectory(n, opts.excludePatterns)
      && depth < d && !opts.TooDeep(d - 1)
      && (!opts.recursive ==> d == depth + 1)
    case FileVisit(_, n, _, d) =>
      && !ShouldExcludeFile(n, opts.excludePatterns)
      && depth <= d && !opts.TooDeep(d)
      && (!opts.recursive ==> d == depth)
  }

  predicate AllAllowed(vs: seq<Visit>, opts: WalkOptions, depth: nat)
    requires opts.Valid()
  {
    forall i :: 0 <= i < |vs| ==> VisitAllowed(vs[i], opts, depth)
  }

  /** Excluded names never show up; no file lies deeper than `maxDepth`
      (when it is not negative) and no folder more than one level deeper;
      without recursion only the top directory's own entries show up. */
  lemma {:induction false} VisitsDirAllowed(path: string, readable: bool, entries: seq<Node>, opts: WalkOptions, depth: nat)
    requires opts.Valid()
    ensures AllAllowed(VisitsDir(path, readable, entries, opts, depth), opts, depth)
    decreases entries, 1
  {
    if !opts.TooDeep(depth) && readable {
      VisitsEntriesAllowed(path, entries, opts, depth);
    }
  }

  lemma {:induction false} VisitsEntriesAllowed(path: string, es: seq<Node>, opts: WalkOptions, depth: nat)
    requires opts.Valid()
    requires !opts.TooDeep(depth)
    ensures AllAllowed(VisitsEntries(path, es, opts, depth), opts, depth)
    decreases es, 0
  {
    if |es| > 0 {
      VisitsEntryAllowed(path, es[0], opts, depth);
      VisitsEntriesAllowed(path, es[1..], opts, depth);
    }
  }

  lemma {:induction false} VisitsEntryAllowed(path: string, e: Node, opts: WalkOptions, depth: nat)
    requires opts.Valid()
    requires !opts.TooDeep(depth)
    ensures AllAllowed(VisitsEntry(path, e, opts, depth), opts, depth)
    decreases e, 2
  {
    match e
    case Dir(n, ok, cs) =>
      if !ShouldExcludeDirectory(n, opts.excludePatterns) && opts.recursive {
        var p := JoinPath(path, n);
        VisitsDirAllowed(p, ok, cs, opts, depth + 1);
        var sub := VisitsDir(p, ok, cs, opts, depth + 1);
        assert forall i :: 0 <= i < |sub| ==> VisitAllowed(sub[i], opts, depth + 1);
      }
    case File(n, _) =>
    case Special(_) =>
  }

  // ---------------------------------------------------------------------
  // The collecting pass
  // ---------------------------------------------------------------------

  /** The fields `analyzeDirectory` updates. `processedFiles` always equals
      `fileCount`, since both go up together, so it is not kept twice. */
  datatype Walk = Walk(
    totalSize: nat,
    folders: nat,
    files: nat,
    classifier: FileClassifier,
    allFiles: seq<FileRecord>,
    progress: seq<Progress>)

  /** Where each analysis starts: every field reset, the classifier too. */
  function StartWalk(): (st: Walk)
    ensures st.totalSize == 0 && st.folders == 0 && st.files == 0
    ensures st.allFiles == [] && st.progress == []
    ensures forall c :: st.classifier.classification.Get(c) == 0
  {
    Walk(0, 0, 0, FileClassifier(Counts(0, 0, 0, 0, 0, 0, 0)), [], [])
  }

  /** Whether a progress callback is called for each file: it must exist and
      the count from the first pass must not be zero. */
  datatype Reporting = Reporting(hasCallback: bool, totalFiles: nat)
  {
    predicate Active() {
      hasCallback && totalFiles > 0
    }
  }

  /** One file whose stat succeeded: its size is added, its name classified,
      its record kept, and progress reported with the new count. */
  function LoadFile(st: Walk, path: string, name: string, size: nat, rep: Reporting): Walk
  {
    Walk(
      st.totalSize + size,
      st.folders,
      st.files + 1,
      st.classifier.ClassifyFile(name),
      st.allFiles + [FileRecord(path, size)],
      st.progress + (if rep.Active() then [Progress(st.files + 1, rep.totalFiles, Some(path))] else []))
  }

  /** `analyzeDirectory`: nothing happens below the depth bound or when the
      listing fails; otherwise the entries are taken in order. */
  function WalkDir(path: string, readable: bool, entries: seq<Node>, opts: WalkOptions, depth: nat, rep: Reporting, st: Walk): Walk
    requires opts.Valid()
    decreases entries, 1
  {
    if opts.TooDeep(depth) then st
    else if !readable then st
    else WalkEntries(path, entries, opts, depth, rep, st)
  }

  function WalkEntries(path: string, es: seq<Node>, opts: WalkOptions, depth: nat, rep: Reporting, st: Walk): Walk
    requires opts.Valid()
    decreases es, 0
  {
    if |es| == 0 then st
    else WalkEntries(path, es[1..], opts, depth, rep, WalkEntry(path, es[0], opts, depth, rep, st))
  }

  /** One entry: a kept subdirectory is counted before it is entered (and
      counted even when it is not entered); a kept file is loaded when its
      stat succeeds and skipped otherwise. */
  function WalkEntry(path: string, e: Node, opts: WalkOptions, depth: nat, rep: Reporting, st: Walk): Walk
    requires opts.Valid()
    decreases e, 2
  {
    match e
    case Dir(n, ok, cs) =>
      if ShouldExcludeDirectory(n, opts.excludePatterns) then st
      else
        var counted := st.(folders := st.folders + 1);
        if opts.recursive then WalkDir(JoinPath(path, n), ok, cs, opts, depth + 1, rep, counted) else counted
    case File(n, size) =>
      if ShouldExcludeFile(n, opts.excludePatterns) then st
      else
        (match size
         case None => st
         case Some(s) => LoadFile(st, JoinPath(path, n), n, s, rep))
    case Special(_) => st
  }

  // ---------------------------------------------------------------------
  // The collecting pass replays the visits
  // ---------------------------------------------------------------------

  function Step(st: Walk, v: Visit, rep: Reporting): Walk {
    match v
    case FolderVisit(_, _, _) => st.(folders := st.folders + 1)
    case FileVisit(p, n, size, _) =>
      match size
      case None => st
      case Some(s) => LoadFile(st, p, n, s, rep)
  }

  function Replay(st: Walk, vs: seq<Visit>, rep: Reporting): Walk
    decreases vs
  {
    if |vs| == 0 then st else Replay(Step(st, vs[0], rep), vs[1..], rep)
  }

  lemma {:induction false} ReplayConcat(st: Walk, a: seq<Visit>, b: seq<Visit>, rep: Reporting)
    ensures Replay(st, a + b, rep) == Replay(Replay(st, a, rep), b, rep)
    decreases a
  {
    if |a| > 0 {
      assert (a + b)[0] == a[0];
      assert (a + b)[1..] == a[1..] + b;
      ReplayConcat(Step(st, a[0], rep), a[1..], b, rep);
    } else {
      assert a + b == b;
    }
  }

  lemma {:induction false} WalkDirIsReplay(path: string, readable: bool, entries: seq<Node>, opts: WalkOptions, depth: nat, rep: Reporting, st: Walk)
    requires opts.Valid()
    ensures WalkDir(path, readable, entries, opts, depth, rep, st) == Replay(st, VisitsDir(path, readable, entries, opts, depth), rep)
    decreases entries, 1
  {
    if !opts.TooDeep(depth) && readable {
      WalkEntriesIsReplay(path, entries, opts, depth, rep, st);
    }
  }

  lemma {:induction false} WalkEntriesIsReplay(path: string, es: seq<Node>, opts: WalkOptions, depth: nat, rep: Reporting, st: Walk)
    requires opts.Valid()
    ensures WalkEntries(path, es, opts, depth, rep, st) == Replay(st, VisitsEntries(path, es, opts, depth), rep)
    decreases es, 0
  {
    if |es| > 0 {
      var first := VisitsEntry(path, es[0], opts, depth);
      var mid := WalkEntry(path, es[0], opts, depth, rep, st);
      WalkEntryIsReplay(path, es[0], opts, depth, rep, st);
      WalkEntriesIsReplay(path, es[1..], opts, depth, rep, mid);
      ReplayConcat(st, first, VisitsEntries(path, es[1..], opts, depth), rep);
    }
  }

  lemma {:induction false} WalkEntryIsReplay(path: string, e: Node, opts: WalkOptions, depth: nat, rep: Reporting, st: Walk)
    requires opts.Valid()
    ensures WalkEntry(path, e, opts, depth, rep, st) == Replay(st, VisitsEntry(path, e, opts, depth), rep)
    decreases e, 2
  {
    match e
    case Dir(n, ok, cs) =>
      if !ShouldExcludeDirectory(n, opts.excludePatterns) {
        var p := JoinPath(path, n);
        var counted := st.(folders := st.folders + 1);
        var head := [FolderVisit(p, n, depth + 1)];
        assert Replay(st, head, rep) == counted;
        if opts.recursive {
          WalkDirIsReplay(p, ok, cs, opts, depth + 1, rep, counted);
          ReplayConcat(st, head, VisitsDir(p, ok, cs, opts, depth + 1), rep);
        } else {
          assert VisitsEntry(path, e, opts, depth) == head + [];
        }
      }
    case File(n, size) =>
      if !ShouldExcludeFile(n, opts.excludePatterns) {
        var v := FileVisit(JoinPath(path, n), n, size, depth);
        assert Replay(st, [v], rep) == Replay(Step(st, v, rep), [], rep);
      }
    case Special(_) =>
  }

  // ---------------------------------------------------------------------
  // What a replay adds up to
  // ---------------------------------------------------------------------

  function FolderCount(vs: seq<Visit>): nat {
    if |vs| == 0 then 0 else (if vs[0].FolderVisit? then 1 else 0) + FolderCount(vs[1..])
  }

  /** A file visit whose stat succeeded. */
  predicate IsLoaded(v: Visit) {
    v.FileVisit? && v.size.Some?
  }

  /** The files among the visits whose stat succeeded, in order. */
  function Loaded(vs: seq<Visit>): seq<FileRecord> {
    if |vs| == 0 then []
    else
      (if IsLoaded(vs[0]) then [FileRecord(vs[0].path, vs[0].size.value)] else [])
      + Loaded(vs[1..])
  }

  /** The names of those files. */
  function LoadedNames(vs: seq<Visit>): seq<string> {
    if |vs| == 0 then []
    else
      (if IsLoaded(vs[0]) then [vs[0].name] else [])
      + LoadedNames(vs[1..])
  }

  /** The progress calls for `recs`, counting on from `done`. */
  function Reports(recs: seq<FileRecord>, done: nat, total: nat): seq<Progress> {
    if |recs| == 0 then []
    else [Progress(done + 1, total, Some(recs[0].path))] + Reports(recs[1..], done + 1, total)
  }

  /** The progress calls number the files consecutively from `done + 1`. */
  lemma {:induction false} ReportsNumbered(recs: seq<FileRecord>, done: nat, total: nat)
    ensures |Reports(recs, done, total)| == |recs|
    ensures forall i :: 0 <= i < |recs| ==>
      Reports(recs, done, total)[i] == Progress(done + i + 1, total, Some(recs[i].path))
  {
    if |recs| > 0 {
      ReportsNumbered(recs[1..], done + 1, total);
    }
  }

  lemma {:induction false} ReplayFolders(st: Walk, vs: seq<Visit>, rep: Reporting)
    ensures Replay(st, vs, rep).folders == st.folders + FolderCount(vs)
    decreases vs
  {
    if |vs| > 0 {
      ReplayFolders(Step(st, vs[0], rep), vs[1..], rep);
    }
  }

  lemma {:induction false} ReplayRecords(st: Walk, vs: seq<Visit>, rep: Reporting)
    ensures Replay(st, vs, rep).allFiles == st.allFiles + Loaded(vs)
    ensures Replay(st, vs, rep).files == st.files + |Loaded(vs)|
    decreases vs
  {
    if |vs| > 0 {
      var next := Step(st, vs[0], rep);
      ReplayRecords(next, vs[1..], rep);
      assert next.allFiles + Loaded(vs[1..]) == st.allFiles + Loaded(vs)
          && next.files + |Loaded(vs[1..])| == st.files + |Loaded(vs)| by {
        var rest := Loaded(vs[1..]);
        if IsLoaded(vs[0]) {
          var rec := FileRecord(vs[0].path, vs[0].size.value);
          assert Loaded(vs) == [rec] + rest;
          assert next.allFiles == st.allFiles + [rec] && next.files == st.files + 1;
          assert st.allFiles + [rec] + rest == st.allFiles + ([rec] + rest);
        } else {
          assert Loaded(vs) == rest;
          assert next.allFiles == st.allFiles && next.files == st.files;
        }
      }
    }
  }

  lemma {:induction false} ReplaySize(st: Walk, vs: seq<Visit>, rep: Reporting)
    ensures Replay(st, vs, rep).totalSize == st.totalSize + Sizes(Loaded(vs))
    decreases vs
  {
    if |vs| > 0 {
      var next := Step(st, vs[0], rep);
      ReplaySize(next, vs[1..], rep);
      var rest := Loaded(vs[1..]);
      if IsLoaded(vs[0]) {
        var rec := FileRecord(vs[0].path, vs[0].size.value);
        assert Loaded(vs) == [rec] + rest;
        assert ([rec] + rest)[1..] == rest;
        assert next.totalSize == st.totalSize + rec.size;
      } else {
        assert Loaded(vs) == rest;
        assert next.totalSize == st.totalSize;
      }
    }
  }

  lemma {:induction false} ReplayClassifier(st: Walk, vs: seq<Visit>, rep: Reporting)
    ensures Replay(st, vs, rep).classifier == ClassifyAll(st.classifier, LoadedNames(vs))
    decreases vs
  {
    if |vs| > 0 {
      ReplayClassifier(Step(st, vs[0], rep), vs[1..], rep);
      var rest := LoadedNames(vs[1..]);
      if IsLoaded(vs[0]) {
        var n := vs[0].name;
        assert LoadedNames(vs) == [n] + rest;
        assert ([n] + rest)[1..] == rest;
        assert Step(st, vs[0], rep).classifier == st.classifier.ClassifyFile(n);
      } else {
        assert LoadedNames(vs) == rest;
      }
    }
  }

  /** The progress calls a replay of `vs` makes once `done` files are in. */
  function VisitReports(vs: seq<Visit>, done: nat, total: nat): seq<Progress>
    decreases vs
  {
    if |vs| == 0 then []
    else if IsLoaded(vs[0]) then [Progress(done + 1, total, Some(vs[0].path))] + VisitReports(vs[1..], done + 1, total)
    else VisitReports(vs[1..], done, total)
  }

  lemma {:induction false} VisitReportsAreReports(vs: seq<Visit>, done: nat, total: nat)
    ensures VisitReports(vs, done, total) == Reports(Loaded(vs), done, total)
    decreases vs
  {
    if |vs| > 0 {
      VisitReportsAreReports(vs[1..], if IsLoaded(vs[0]) then done + 1 else done, total);
      var rest := Loaded(vs[1..]);
      if IsLoaded(vs[0]) {
        var rec := FileRecord(vs[0].path, vs[0].size.value);
        assert Loaded(vs) == [rec] + rest;
        assert ([rec] + rest)[1..] == rest;
      } else {
        assert Loaded(vs) == rest;
      }
    }
  }

  /** One step adds one file and, when reporting, one call exactly for a
      loaded file. */
  lemma StepReports(st: Walk, v: Visit, rep: Reporting)
    ensures Step(st, v, rep).files == st.files + (if IsLoaded(v) then 1 else 0)
    ensures Step(st, v, rep).progress
         == st.progress + (if rep.Active() && IsLoaded(v) then [Progress(st.files + 1, rep.totalFiles, Some(v.path))] else [])
  {
  }

  lemma {:induction false} ReplayVisitReports(st: Walk, vs: seq<Visit>, rep: Reporting)
    ensures Replay(st, vs, rep).progress
         == st.progress + (if rep.Active() then VisitReports(vs, st.files, rep.totalFiles) else [])
    decreases vs
  {
    if |vs| > 0 {
      var next := Step(st, vs[0], rep);
      ReplayVisitReports(next, vs[1..], rep);
      StepReports(st, vs[0], rep);
      assert Replay(st, vs, rep) == Replay(next, vs[1..], rep);
      if rep.Active() {
        var tail := VisitReports(vs[1..], next.files, rep.totalFiles);
        if IsLoaded(vs[0]) {
          var head := [Progress(st.files + 1, rep.totalFiles, Some(vs[0].path))];
          assert VisitReports(vs, st.files, rep.totalFiles) == head + tail;
          assert next.progress + tail == st.progress + (head + tail);
        } else {
          assert VisitReports(vs, st.files, rep.totalFiles) == tail;
        }
      }
    }
  }

  lemma ReplayProgress(st: Walk, vs: seq<Visit>, rep: Reporting)
    ensures Replay(st, vs, rep).progress
         == st.progress + (if rep.Active() then Reports(Loaded(vs), st.files, rep.totalFiles) else [])
  {
    ReplayVisitReports(st, vs, rep);
    VisitReportsAreReports(vs, st.files, rep.totalFiles);
  }

  /** Replaying visits adds one folder per folder visit; and per file visit
      whose stat succeeded, one file, its size, its record, one count for its
      name's category and, when progress is reported, one call numbered with
      the new file count. */
  lemma ReplaySpec(st: Walk, vs: seq<Visit>, rep: Reporting)
    ensures var r := Replay(st, vs, rep);
      && r.folders == st.folders + FolderCount(vs)
      && r.allFiles == st.allFiles + Loaded(vs)
      && r.files == st.files + |Loaded(vs)|
      && r.totalSize == st.totalSize + Sizes(Loaded(vs))
      && r.classifier == ClassifyAll(st.classifier, LoadedNames(vs))
      && r.progress == st.progress + (if rep.Active() then Reports(Loaded(vs), st.files, rep.totalFiles) else [])
  {
    ReplayFolders(st, vs, rep);
    ReplayRecords(st, vs, rep);
    ReplaySize(st, vs, rep);
    ReplayClassifier(st, vs, rep);
    ReplayProgress(st, vs, rep);
  }

  // ---------------------------------------------------------------------
  // The two passes agree
  // ---------------------------------------------------------------------

  function StatFailures(vs: seq<Visit>): nat {
    if |vs| == 0 then 0 else (if vs[0].FileVisit? && vs[0].size.None? then 1 else 0) + StatFailures(vs[1..])
  }

  /** Every file visit is either loaded or a stat failure. */
  lemma {:induction false} FileVisitsSplit(vs: seq<Visit>)
    ensures FileVisitCount(vs) == |Loaded(vs)| + StatFailures(vs)
  {
    if |vs| > 0 {
      FileVisitsSplit(vs[1..]);
    }
  }

  /** The first pass's count bounds the files the second pass loads, and
      matches it exactly when no stat fails. */
  lemma CountBoundsFiles(path: string, readable: bool, entries: seq<Node>, opts: WalkOptions, rep: Reporting)
    requires opts.Valid()
    ensures var vs := VisitsDir(path, readable, entries, opts, 0);
      var r := WalkDir(path, readable, entries, opts, 0, rep, StartWalk());
      && r.files + StatFailures(vs) == CountDir(readable, entries, opts, 0)
      && r.files <= CountDir(readable, entries, opts, 0)
      && (StatFailures(vs) == 0 <==> r.files == CountDir(readable, entries, opts, 0))
  {
    var vs := VisitsDir(path, readable, entries, opts, 0);
    WalkDirIsReplay(path, readable, entries, opts, 0, rep, StartWalk());
    ReplaySpec(StartWalk(), vs, rep);
    CountDirIsFileVisits(path, readable, entries, opts, 0);
    FileVisitsSplit(vs);
  }

  /** A whole walk from a fresh start: the folder count, the file records,
      the file count, the total size, the category counters and the progress
      calls are all determined by the visits the rules let through. */
  lemma WalkFromStart(path: string, readable: bool, entries: seq<Node>, opts: WalkOptions, rep: Reporting, c: Category)
    requires opts.Valid()
    ensures var vs := VisitsDir(path, readable, entries, opts, 0);
      var r := WalkDir(path, readable, entries, opts, 0, rep, StartWalk());
      && r.folders == FolderCount(vs)
      && r.allFiles == Loaded(vs)
      && r.files == |r.allFiles|
      && r.totalSize == Sizes(r.allFiles)
      && r.classifier.classification.Get(c) == Occurrences(Categories(LoadedNames(vs)), c)
      && r.classifier.classification.Total() == r.files
      && r.progress == (if rep.Active() then Reports(r.allFiles, 0, rep.totalFiles) else [])
  {
    var vs := VisitsDir(path, readable, entries, opts, 0);
    var st := StartWalk();
    WalkDirIsReplay(path, readable, entries, opts, 0, rep, st);
    ReplaySpec(st, vs, rep);
    assert st.classifier == st.classifier.Reset();
    ClassifyAfterReset(st.classifier, LoadedNames(vs), c);
    LoadedNamesMatch(vs);
    assert [] + Loaded(vs) == Loaded(vs);
  }

  lemma {:induction false} LoadedNamesMatch(vs: seq<Visit>)
    ensures |LoadedNames(vs)| == |Loaded(vs)|
  {
    if |vs| > 0 {
      LoadedNamesMatch(vs[1..]);
    }
  }
}
