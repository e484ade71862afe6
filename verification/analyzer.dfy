/** `DirectoryAnalyzer.analyze` (src/analyzer.ts): check the root, count the
    files, walk the tree, then run the optional analyses on the records the
    walk collected, in the order the source runs them.

    The machine the analysis looks at is a parameter (`Environment`): the
    root's `fs.stat`, the tree below it, the later `fs.stat` results, the
    file contents the duplicate detector reads, and the size formatters. */
module Analyzer {
  import opened Wrappers
  import opened Strings
  import opened Sorting
  import opened Records
  import opened Classifier
  import opened Exclusion
  import opened Walker
  import opened Detectors
  import opened Duplicates
  import TreeView
  import CsvExport

  // ---------------------------------------------------------------------
  // Every path the walk produces lies below the root
  // ---------------------------------------------------------------------

  /** A directory entry's name as a file system gives it: a valid segment
      without a slash. */
  predicate ValidName(name: string) {
    TreeView.ValidPart(name) && '/' !in name
  }

  predicate ValidChain(chain: seq<string>) {
    forall i :: 0 <= i < |chain| ==> ValidName(chain[i])
  }

  /** Every name in the tree is a valid name. */
  predicate WellNamed(es: seq<Node>)
    decreases es
  {
    forall i :: 0 <= i < |es| ==> ValidName(es[i].name) && (es[i].Dir? ==> WellNamed(es[i].entries))
  }

  /** The path of the directory reached from `root` through `chain`. */
  function DirPath(root: string, chain: seq<string>): string {
    if |chain| == 0 then root else TreeView.Prefix(root) + Join(chain, '/')
  }

  lemma {:induction false} JoinAppend(chain: seq<string>, name: string)
    requires |chain| > 0
    ensures Join(chain + [name], '/') == Join(chain, '/') + "/" + name
  {
    if |chain| > 1 {
      assert (chain + [name])[1..] == chain[1..] + [name];
      JoinAppend(chain[1..], name);
    } else {
      assert (chain + [name])[1..] == [name];
    }
  }

  lemma {:induction false} JoinEnd(chain: seq<string>)
    requires |chain| > 0 && ValidChain(chain)
    ensures |Join(chain, '/')| > 0 && Join(chain, '/')[|Join(chain, '/')| - 1] != '/'
  {
    var last := chain[|chain| - 1];
    assert last in chain;
    if |chain| > 1 {
      assert ValidChain(chain[1..]) by {
        assert forall i :: 0 <= i < |chain| - 1 ==> chain[1..][i] == chain[i + 1];
      }
      JoinEnd(chain[1..]);
    } else {
      assert last[|last| - 1] in last;
    }
  }

  /** Joining a name onto a directory path extends its chain. */
  lemma ChildPath(root: string, chain: seq<string>, name: string)
    requires |root| > 0 && ValidChain(chain) && ValidName(name)
    ensures JoinPath(DirPath(root, chain), name) == DirPath(root, chain + [name])
  {
    if |chain| == 0 {
      assert chain + [name] == [name];
    } else {
      JoinEnd(chain);
      JoinAppend(chain, name);
    }
  }

  lemma DirPathInside(root: string, chain: seq<string>)
    requires |root| > 0 && ValidChain(chain)
    ensures TreeView.InsideRoot(root, DirPath(root, chain))
  {
    if |chain| > 0 {
      var p := DirPath(root, chain);
      var pre := TreeView.Prefix(root);
      assert p[..|pre|] == pre;
      assert p[|pre|..] == Join(chain, '/');
      SplitJoin(chain, '/');
      forall part | part in Split(p[|pre|..], '/') ensures TreeView.ValidPart(part) {
        var i :| 0 <= i < |chain| && chain[i] == part;
      }
    }
  }

  predicate VisitsInside(root: string, vs: seq<Visit>) {
    forall v :: v in vs ==> TreeView.InsideRoot(root, v.path)
  }

  lemma {:induction false} DirVisitsInside(root: string, chain: seq<string>, readable: bool, entries: seq<Node>, opts: WalkOptions, depth: nat)
    requires opts.Valid() && |root| > 0 && ValidChain(chain) && WellNamed(entries)
    ensures VisitsInside(root, VisitsDir(DirPath(root, chain), readable, entries, opts, depth))
    decreases entries, 1
  {
    if !opts.TooDeep(depth) && readable {
      EntriesVisitsInside(root, chain, entries, opts, depth);
    }
  }

  lemma {:induction false} EntriesVisitsInside(root: string, chain: seq<string>, es: seq<Node>, opts: WalkOptions, depth: nat)
    requires opts.Valid() && |root| > 0 && ValidChain(chain) && WellNamed(es)
    ensures VisitsInside(root, VisitsEntries(DirPath(root, chain), es, opts, depth))
    decreases es, 0
  {
    if |es| > 0 {
      assert WellNamed(es[1..]) by {
        assert forall i :: 0 <= i < |es| - 1 ==> es[1..][i] == es[i + 1];
      }
      EntryVisitsInside(root, chain, es[0], opts, depth);
      EntriesVisitsInside(root, chain, es[1..], opts, depth);
    }
  }

  lemma {:induction false} EntryVisitsInside(root: string, chain: seq<string>, e: Node, opts: WalkOptions, depth: nat)
    requires opts.Valid() && |root| > 0 && ValidChain(chain)
    requires ValidName(e.name) && (e.Dir? ==> WellNamed(e.entries))
    ensures VisitsInside(root, VisitsEntry(DirPath(root, chain), e, opts, depth))
    decreases e, 2
  {
    var here := DirPath(root, chain);
    var child := chain + [e.name];
    assert ValidChain(child);
    ChildPath(root, chain, e.name);
    DirPathInside(root, child);
    match e
    case Dir(n, ok, cs) =>
      if !ShouldExcludeDirectory(n, opts.excludePatterns) && opts.recursive {
        DirVisitsInside(root, child, ok, cs, opts, depth + 1);
      }
    case File(n, size) =>
    case Special(_) =>
  }

  lemma {:induction false} LoadedInside(root: string, vs: seq<Visit>)
    requires VisitsInside(root, vs)
    ensures TreeView.AllInside(root, Loaded(vs))
  {
    if |vs| > 0 {
      assert vs[0] in vs;
      assert VisitsInside(root, vs[1..]) by {
        assert forall v :: v in vs[1..] ==> v in vs;
      }
      LoadedInside(root, vs[1..]);
    }
  }

  /** Keeping only files of a list below the root keeps them below it. */
  lemma InsideSubset(root: string, a: seq<FileRecord>, b: seq<FileRecord>)
    requires TreeView.AllInside(root, a)
    requires forall f :: f in b ==> f in a
    ensures TreeView.AllInside(root, b)
  {
    forall i | 0 <= i < |b| ensures TreeView.InsideRoot(root, b[i].path) {
      assert b[i] in a;
      var j :| 0 <= j < |a| && a[j] == b[i];
    }
  }

  // ---------------------------------------------------------------------
  // analyze
  // ---------------------------------------------------------------------

  /** What `fs.stat` says of the root: it fails (with the error's text), or
      the root is not a directory, or it is one, whose listing fails when it
      is not `readable`. */
  datatype RootStat =
    | Unreachable(reason: string)
    | NotDirectory
    | Directory(readable: bool, entries: seq<Node>)

  /** `AnalysisOptions`. The callback is only there or not; dates are time
      values in milliseconds. */
  datatype AnalysisOptions = AnalysisOptions(
    path: string,
    recursive: bool,
    excludePatterns: seq<string>,
    largeSizeThreshold: Option<int>,
    enableDuplicateDetection: bool,
    progressCallback: bool,
    maxDepth: Option<int>,
    minSize: Option<int>,
    maxSize: Option<int>,
    dateFrom: Option<int>,
    dateTo: Option<int>,
    topN: Option<int>,
    showEmptyFiles: bool)

  /** The machine as the analysis sees it. A later `fs.stat` of any path
      reads `stats`. */
  datatype Environment = Environment(root: RootStat, stats: StatTable, reader: Reader, fmt: Formatter)

  /** A finished analysis: the result and every progress call made. */
  datatype Outcome = Outcome(result: CsvExport.AnalysisResult, progress: seq<Progress>)

  /** A number option is truthy when it is given and not zero. */
  predicate Truthy(n: Option<int>) {
    n.Some? && n.value != 0
  }

  /** `options.maxDepth || -1`: a missing or zero bound means none. */
  function DepthBound(maxDepth: Option<int>): (d: int)
    ensures d < 0 <==> !Truthy(maxDepth) || maxDepth.value < 0
    ensures Truthy(maxDepth) ==> d == maxDepth.value
  {
    if Truthy(maxDepth) then maxDepth.value else -1
  }

  function AccessError(path: string, reason: string): string {
    "Unable to access path '" + path + "': " + reason
  }

  function NotDirectoryReason(path: string): string {
    "Error: Path '" + path + "' is not a directory"
  }

  const ScanMessage: string := "Scanning directories..."
  const DuplicatesMessage: string := "Detecting duplicates..."

  /** No tree view is drawn for more files than this. */
  const TreeViewLimit: nat := 1000

  /** The compact tree view shows at most this many files. */
  const TreeViewFiles: int := 50

  function WalkOptionsOf(opts: AnalysisOptions): WalkOptions {
    WalkOptions(opts.recursive, opts.excludePatterns, DepthBound(opts.maxDepth))
  }

  /** The two passes from a fresh start: the first pass's count decides
      whether the second reports progress. */
  function Scan(opts: AnalysisOptions, readable: bool, entries: seq<Node>): Walk
    requires ValidPatterns(opts.excludePatterns)
  {
    var wopts := WalkOptionsOf(opts);
    var total := CountDir(readable, entries, wopts, 0);
    WalkDir(opts.path, readable, entries, wopts, 0, Reporting(opts.progressCallback, total), StartWalk())
  }

  /** The size filter, when a bound is given, then the date filter, when a
      bound is given. */
  function FilterFiles(files: seq<FileRecord>, opts: AnalysisOptions, stats: StatTable): (r: seq<FileRecord>)
    ensures forall f :: f in r <==> f in files && KeptBy(opts, stats, f)
    ensures Unfiltered(opts) ==> r == files
  {
    var sized := if opts.minSize.Some? || opts.maxSize.Some? then FilterBySize(files, opts.minSize, opts.maxSize) else files;
    assert forall f :: f in sized ==> f in files;
    if opts.dateFrom.Some? || opts.dateTo.Some? then FilterByDate(sized, opts.dateFrom, opts.dateTo, stats) else sized
  }

  /** The filters keep the walk's files in their order: filtering
      distributes over concatenation, and a single file stays exactly when
      the filters keep it. */
  lemma FilterFilesInOrder(a: seq<FileRecord>, b: seq<FileRecord>, f: FileRecord, opts: AnalysisOptions, stats: StatTable)
    ensures FilterFiles(a + b, opts, stats) == FilterFiles(a, opts, stats) + FilterFiles(b, opts, stats)
    ensures FilterFiles([f], opts, stats) == if KeptBy(opts, stats, f) then [f] else []
  {
    FilterBySizeInOrder(a, b, f, opts.minSize, opts.maxSize);
    var sa := if opts.minSize.Some? || opts.maxSize.Some? then FilterBySize(a, opts.minSize, opts.maxSize) else a;
    var sb := if opts.minSize.Some? || opts.maxSize.Some? then FilterBySize(b, opts.minSize, opts.maxSize) else b;
    FilterByDateInOrder(sa, sb, f, opts.dateFrom, opts.dateTo, stats);
    FilterByDateInOrder([], [], f, opts.dateFrom, opts.dateTo, stats);
    assert FilterByDate([], opts.dateFrom, opts.dateTo, stats) == [];
  }

  /** Whether the filters keep a file: its size within the bounds given and,
      when a date bound is given, a later stat whose modification time lies
      within those bounds. */
  predicate KeptBy(opts: AnalysisOptions, stats: StatTable, f: FileRecord) {
    && (opts.minSize.None? || f.size >= opts.minSize.value)
    && (opts.maxSize.None? || f.size <= opts.maxSize.value)
    && ((opts.dateFrom.Some? || opts.dateTo.Some?) ==>
          f.path in stats
          && (opts.dateFrom.None? || stats[f.path].mtime >= opts.dateFrom.value)
          && (opts.dateTo.None? || stats[f.path].mtime <= opts.dateTo.value))
  }

  /** Whether `filteredFiles` is still the very array `this.allFiles`. */
  predicate Unfiltered(opts: AnalysisOptions) {
    opts.minSize.None? && opts.maxSize.None? && opts.dateFrom.None? && opts.dateTo.None?
  }

  /** The wasted space of all groups, added up. */
  function WastedTotal(groups: seq<DuplicateGroup>): nat {
    if |groups| == 0 then 0 else groups[0].totalWastedSpace + WastedTotal(groups[1..])
  }

  function DuplicateStatsOf(groups: seq<DuplicateGroup>, fmt: Formatter): Option<CsvExport.DuplicateStats> {
    if |groups| == 0 then None
    else Some(CsvExport.DuplicateStats(|groups|, WastedTotal(groups), fmt.size(WastedTotal(groups))))
  }

  /** The progress calls of duplicate detection: the analyser's own, then
      the detector's. */
  function DuplicateReports(paths: seq<string>, rd: Reader): seq<Progress> {
    [Progress(0, |paths|, Some(DuplicatesMessage))] + DuplicateProgress(paths, rd)
  }

  /** The visits the second pass makes. */
  function ScanVisits(opts: AnalysisOptions, readable: bool, entries: seq<Node>): seq<Visit>
    requires ValidPatterns(opts.excludePatterns)
  {
    VisitsDir(opts.path, readable, entries, WalkOptionsOf(opts), 0)
  }

  lemma ScanLoaded(opts: AnalysisOptions, readable: bool, entries: seq<Node>)
    requires ValidPatterns(opts.excludePatterns)
    ensures Scan(opts, readable, entries).allFiles == Loaded(ScanVisits(opts, readable, entries))
  {
    var wopts := WalkOptionsOf(opts);
    var rep := Reporting(opts.progressCallback, CountDir(readable, entries, wopts, 0));
    WalkDirIsReplay(opts.path, readable, entries, wopts, 0, rep, StartWalk());
    ReplayRecords(StartWalk(), ScanVisits(opts, readable, entries), rep);
    assert [] + Loaded(ScanVisits(opts, readable, entries)) == Loaded(ScanVisits(opts, readable, entries));
  }

  /** The walk's files are below the root. */
  lemma ScanInside(opts: AnalysisOptions, readable: bool, entries: seq<Node>)
    requires ValidPatterns(opts.excludePatterns) && |opts.path| > 0 && WellNamed(entries)
    ensures TreeView.AllInside(opts.path, Scan(opts, readable, entries).allFiles)
  {
    ScanLoaded(opts, readable, entries);
    assert DirPath(opts.path, []) == opts.path;
    DirVisitsInside(opts.path, [], readable, entries, WalkOptionsOf(opts), 0);
    LoadedInside(opts.path, ScanVisits(opts, readable, entries));
  }

  /** `options.largeSizeThreshold` truthy: the large files of the walk's
      list. */
  function LargeOf(opts: AnalysisOptions, all: seq<FileRecord>, fmt: Formatter): Option<seq<LargeFile>> {
    if Truthy(opts.largeSizeThreshold) then Some(DetectLargeFiles(all, opts.largeSizeThreshold.value, fmt)) else None
  }

  /** `options.enableDuplicateDetection`: the groups among the walk's paths. */
  function GroupsOf(opts: AnalysisOptions, env: Environment, all: seq<FileRecord>): Option<seq<DuplicateGroup>> {
    if opts.enableDuplicateDetection then Some(DetectDuplicates(Paths(all), env.reader, env.stats, env.fmt)) else None
  }

  /** `options.topN` truthy: the top files, and the filtered list as the
      in-place sort leaves it. */
  function TopOf(opts: AnalysisOptions, filtered: seq<FileRecord>, fmt: Formatter): (r: (Option<seq<LargeFile>>, seq<FileRecord>))
    ensures multiset(r.1) == multiset(filtered)
  {
    if Truthy(opts.topN) then
      var t := GetTopLargestFiles(filtered, opts.topN.value, fmt);
      (Some(t.0), t.1)
    else (None, filtered)
  }

  /** The compact tree view, for at most `TreeViewLimit` files. */
  function TreeOf(root: string, files: seq<FileRecord>, fmt: Formatter): Option<string>
    requires |root| > 0 && TreeView.AllInside(root, files)
  {
    if |files| <= TreeViewLimit then Some(TreeView.GenerateCompactTreeView(files, root, TreeViewFiles, fmt)) else None
  }

  /** The optional analyses on the walk's files, in the source's order:
      large files, duplicates, the filters, the top N (whose in-place sort
      reorders the filtered list, and the walk's list too when no filter
      made a copy), empty files and the tree view. */
  function Extend(opts: AnalysisOptions, env: Environment, all: seq<FileRecord>, basic: CsvExport.AnalysisResult): (r: CsvExport.AnalysisResult)
    requires |opts.path| > 0 && TreeView.AllInside(opts.path, all)
    ensures r.path == basic.path && r.totalSizeBytes == basic.totalSizeBytes && r.totalSizeMB == basic.totalSizeMB
    ensures r.folders == basic.folders && r.files == basic.files && r.types == basic.types
  {
    var groups := GroupsOf(opts, env, all);
    var filtered := FilterFiles(all, opts, env.stats);
    var top := TopOf(opts, filtered, env.fmt);
    var allNow := if Truthy(opts.topN) && Unfiltered(opts) then top.1 else all;
    InsideSubset(opts.path, all, filtered);
    assert forall f :: f in top.1 ==> f in multiset(filtered);
    InsideSubset(opts.path, filtered, top.1);
    CsvExport.AnalysisResult(
      basic.path, basic.totalSizeBytes, basic.totalSizeMB, basic.folders, basic.files, basic.types,
      LargeOf(opts, all, env.fmt),
      groups,
      if groups.Some? then DuplicateStatsOf(groups.value, env.fmt) else None,
      if opts.showEmptyFiles then Some(DetectEmptyFiles(allNow, env.stats)) else None,
      top.0,
      TreeOf(opts.path, top.1, env.fmt))
  }

  /** The progress calls of an analysis with a callback: its own first one,
      the walk's, then those of duplicate detection. */
  function ProgressOf(opts: AnalysisOptions, env: Environment, walk: Walk): seq<Progress> {
    var scanning := if opts.progressCallback then [Progress(0, 1, Some(ScanMessage))] else [];
    var detecting :=
      if opts.enableDuplicateDetection && opts.progressCallback
      then DuplicateReports(Paths(walk.allFiles), env.reader) else [];
    scanning + walk.progress + detecting
  }

  /** The analysis of a root that is a directory. The paths a file system
      hands out are well formed, and the empty path never names a
      directory. */
  function Analysis(opts: AnalysisOptions, env: Environment): Outcome
    requires ValidPatterns(opts.excludePatterns)
    requires env.root.Directory? && |opts.path| > 0 && WellNamed(env.root.entries)
  {
    var walk := Scan(opts, env.root.readable, env.root.entries);
    var basic := CsvExport.AnalysisResult(
      opts.path, walk.totalSize, env.fmt.megabytes(walk.totalSize), walk.folders, walk.files,
      walk.classifier.GetClassification(), None, None, None, None, None, None);
    ScanInside(opts, env.root.readable, env.root.entries);
    Outcome(Extend(opts, env, walk.allFiles, basic), ProgressOf(opts, env, walk))
  }

  /** `analyze`: the root must stat as a directory. */
  function Analyze(opts: AnalysisOptions, env: Environment): (r: Result<Outcome, string>)
    requires ValidPatterns(opts.excludePatterns)
    requires env.root.Directory? ==> |opts.path| > 0 && WellNamed(env.root.entries)
  {
    match env.root
    case Unreachable(reason) => Failure(AccessError(opts.path, reason))
    case NotDirectory => Failure(AccessError(opts.path, NotDirectoryReason(opts.path)))
    case Directory(_, _) => Success(Analysis(opts, env))
  }

  // ---------------------------------------------------------------------
  // What analyze promises
  // ---------------------------------------------------------------------

  /** The analysis fails exactly when the root cannot be stated or is not a
      directory, with the message naming the path and the reason. */
  lemma AnalyzeFails(opts: AnalysisOptions, env: Environment)
    requires ValidPatterns(opts.excludePatterns)
    requires env.root.Directory? ==> |opts.path| > 0 && WellNamed(env.root.entries)
    ensures Analyze(opts, env).Failure? <==> !env.root.Directory?
    ensures env.root.Unreachable? ==>
      Analyze(opts, env).error == "Unable to access path '" + opts.path + "': " + env.root.reason
    ensures env.root.NotDirectory? ==>
      Analyze(opts, env).error
        == "Unable to access path '" + opts.path + "': Error: Path '" + opts.path + "' is not a directory"
    ensures env.root.Directory? ==> Analyze(opts, env) == Success(Analysis(opts, env))
  {
    match env.root
    case Unreachable(reason) =>
      assert Analyze(opts, env) == Failure(AccessError(opts.path, reason));
    case NotDirectory =>
      assert Analyze(opts, env) == Failure(AccessError(opts.path, NotDirectoryReason(opts.path)));
    case Directory(_, _) =>
  }

  function ScanReporting(opts: AnalysisOptions, readable: bool, entries: seq<Node>): Reporting
    requires ValidPatterns(opts.excludePatterns)
  {
    Reporting(opts.progressCallback, CountDir(readable, entries, WalkOptionsOf(opts), 0))
  }

  lemma ScanIsReplay(opts: AnalysisOptions, readable: bool, entries: seq<Node>)
    requires ValidPatterns(opts.excludePatterns)
    ensures Scan(opts, readable, entries)
         == Replay(StartWalk(), ScanVisits(opts, readable, entries), ScanReporting(opts, readable, entries))
  {
    WalkDirIsReplay(opts.path, readable, entries, WalkOptionsOf(opts), 0, ScanReporting(opts, readable, entries), StartWalk());
  }

  /** The walk's counts, in terms of the visits the rules let through; the
      first pass's count is the files loaded plus those whose stat failed. */
  lemma ScanCounts(opts: AnalysisOptions, readable: bool, entries: seq<Node>)
    requires ValidPatterns(opts.excludePatterns)
    ensures var vs := ScanVisits(opts, readable, entries);
      var w := Scan(opts, readable, entries);
      && w.allFiles == Loaded(vs)
      && w.folders == FolderCount(vs)
      && w.files == |Loaded(vs)|
      && w.files + StatFailures(vs) == CountDir(readable, entries, WalkOptionsOf(opts), 0)
      && w.totalSize == Sizes(Loaded(vs))
  {
    var vs := ScanVisits(opts, readable, entries);
    ScanIsReplay(opts, readable, entries);
    ReplaySpec(StartWalk(), vs, ScanReporting(opts, readable, entries));
    CountBoundsFiles(opts.path, readable, entries, WalkOptionsOf(opts), ScanReporting(opts, readable, entries));
    assert [] + Loaded(vs) == Loaded(vs);
  }

  /** One count per loaded file, under its name's category. */
  lemma ScanTypes(opts: AnalysisOptions, readable: bool, entries: seq<Node>, c: Category)
    requires ValidPatterns(opts.excludePatterns)
    ensures var vs := ScanVisits(opts, readable, entries);
      var counts := Scan(opts, readable, entries).classifier.classification;
      && counts.Get(c) == Occurrences(Categories(LoadedNames(vs)), c)
      && counts.Total() == |Loaded(vs)|
  {
    WalkFromStart(opts.path, readable, entries, WalkOptionsOf(opts), ScanReporting(opts, readable, entries), c);
  }

  /** With a callback, one call per loaded file against the first pass's
      count; none without. */
  lemma ScanProgress(opts: AnalysisOptions, readable: bool, entries: seq<Node>)
    requires ValidPatterns(opts.excludePatterns)
    ensures var vs := ScanVisits(opts, readable, entries);
      Scan(opts, readable, entries).progress
        == if opts.progressCallback then Reports(Loaded(vs), 0, CountDir(readable, entries, WalkOptionsOf(opts), 0)) else []
  {
    var vs := ScanVisits(opts, readable, entries);
    var rep := ScanReporting(opts, readable, entries);
    ScanIsReplay(opts, readable, entries);
    ReplaySpec(StartWalk(), vs, rep);
    ScanCounts(opts, readable, entries);
    if opts.progressCallback && !rep.Active() {
      assert |Loaded(vs)| == 0;
    }
  }

  /** The summary repeats the walk's totals. */
  lemma AnalysisFromScan(opts: AnalysisOptions, env: Environment)
    requires ValidPatterns(opts.excludePatterns)
    requires env.root.Directory? && |opts.path| > 0 && WellNamed(env.root.entries)
    ensures var w := Scan(opts, env.root.readable, env.root.entries);
      var r := Analysis(opts, env).result;
      && r.path == opts.path
      && r.totalSizeBytes == w.totalSize && r.totalSizeMB == env.fmt.megabytes(w.totalSize)
      && r.folders == w.folders && r.files == w.files && r.types == w.classifier.classification
  {
  }

  /** The summary of a successful analysis: the path as given, the folders
      and the files the walk let through, their total size in bytes and in
      megabytes, and one category count per file; the first pass's count
      is the files loaded plus those whose stat failed. */
  lemma AnalyzeSummary(opts: AnalysisOptions, env: Environment, c: Category)
    requires ValidPatterns(opts.excludePatterns)
    requires env.root.Directory? && |opts.path| > 0 && WellNamed(env.root.entries)
    ensures var vs := ScanVisits(opts, env.root.readable, env.root.entries);
      var r := Analysis(opts, env).result;
      && r.path == opts.path
      && r.folders == FolderCount(vs)
      && r.files == |Loaded(vs)| == r.types.Total()
      && r.files + StatFailures(vs) == CountDir(env.root.readable, env.root.entries, WalkOptionsOf(opts), 0)
      && r.totalSizeBytes == Sizes(Loaded(vs))
      && r.totalSizeMB == env.fmt.megabytes(Sizes(Loaded(vs)))
      && r.types.Get(c) == Occurrences(Categories(LoadedNames(vs)), c)
  {
    var vs := ScanVisits(opts, env.root.readable, env.root.entries);
    var total := CountDir(env.root.readable, env.root.entries, WalkOptionsOf(opts), 0);
    var w := Scan(opts, env.root.readable, env.root.entries);
    assert w.files + StatFailures(vs) == total by {
      ScanCounts(opts, env.root.readable, env.root.entries);
    }
    AnalysisFromScan(opts, env);
    ScanCounts(opts, env.root.readable, env.root.entries);
    ScanTypes(opts, env.root.readable, env.root.entries, c);
  }

  /** The files an analysis looked at: those the walk loaded. */
  function AnalyzedFiles(opts: AnalysisOptions, env: Environment): seq<FileRecord>
    requires ValidPatterns(opts.excludePatterns) && env.root.Directory?
  {
    Loaded(ScanVisits(opts, env.root.readable, env.root.entries))
  }

  /** Large files and duplicates are reported exactly when asked for, over
      all files the walk loaded; the duplicate statistics exist exactly
      when some group was found, and add the groups' wasted space up. */
  lemma AnalyzeLargeAndDuplicates(opts: AnalysisOptions, env: Environment)
    requires ValidPatterns(opts.excludePatterns)
    requires env.root.Directory? && |opts.path| > 0 && WellNamed(env.root.entries)
    ensures var all := AnalyzedFiles(opts, env);
      var r := Analysis(opts, env).result;
      && (r.largeFiles.Some? <==> Truthy(opts.largeSizeThreshold))
      && (r.largeFiles.Some? ==> r.largeFiles.value == DetectLargeFiles(all, opts.largeSizeThreshold.value, env.fmt))
      && (r.duplicateGroups.Some? <==> opts.enableDuplicateDetection)
      && (r.duplicateGroups.Some? ==>
            r.duplicateGroups.value == DetectDuplicates(Paths(all), env.reader, env.stats, env.fmt))
      && (r.duplicateStats.Some? <==> r.duplicateGroups.Some? && |r.duplicateGroups.value| > 0)
      && (r.duplicateStats.Some? ==>
            && r.duplicateStats.value.totalGroups == |r.duplicateGroups.value|
            && r.duplicateStats.value.totalWastedSpace == WastedTotal(r.duplicateGroups.value)
            && r.duplicateStats.value.totalWastedSpaceFormatted == env.fmt.size(WastedTotal(r.duplicateGroups.value)))
  {
    ScanLoaded(opts, env.root.readable, env.root.entries);
  }

  /** The empty files are those of all files the walk loaded, whether or
      not the top-N sort reordered that list before. */
  lemma AnalyzeEmptyFiles(opts: AnalysisOptions, env: Environment)
    requires ValidPatterns(opts.excludePatterns)
    requires env.root.Directory? && |opts.path| > 0 && WellNamed(env.root.entries)
    ensures var r := Analysis(opts, env).result;
      && (r.emptyFiles.Some? <==> opts.showEmptyFiles)
      && (r.emptyFiles.Some? ==> r.emptyFiles.value == DetectEmptyFiles(AnalyzedFiles(opts, env), env.stats))
  {
    ScanLoaded(opts, env.root.readable, env.root.entries);
    EmptyIgnoresSizeOrder(AnalyzedFiles(opts, env), env.stats);
  }

  /** The top files are kept files, largest first, as many as the slice
      allows, and no kept file left out is larger than one reported. */
  lemma TopOfSpec(opts: AnalysisOptions, filtered: seq<FileRecord>, fmt: Formatter)
    requires Truthy(opts.topN)
    ensures var (top, shown) := TopOf(opts, filtered, fmt);
      && top.Some?
      && |top.value| == SliceLength(|filtered|, opts.topN.value)
      && (forall i :: 0 <= i < |top.value| ==>
            FileRecord(top.value[i].path, top.value[i].size) in filtered
            && top.value[i].sizeFormatted == fmt.size(top.value[i].size))
      && (forall i, j :: 0 <= i < j < |top.value| ==> top.value[i].size >= top.value[j].size)
      && (forall i, f :: 0 <= i < |top.value| && f in multiset(filtered) - multiset(Unformatted(top.value)) ==>
            top.value[i].size >= f.size)
  {
    TopFromInput(filtered, opts.topN.value, fmt);
    TopLeftOutSmaller(filtered, opts.topN.value, fmt);
  }

  /** The top N largest files are reported exactly when `topN` is given and
      not zero, drawn from the files the filters keep. */
  lemma AnalyzeTopFiles(opts: AnalysisOptions, env: Environment)
    requires ValidPatterns(opts.excludePatterns)
    requires env.root.Directory? && |opts.path| > 0 && WellNamed(env.root.entries)
    ensures var all := AnalyzedFiles(opts, env);
      var filtered := FilterFiles(all, opts, env.stats);
      var r := Analysis(opts, env).result;
      && (r.topLargestFiles.Some? <==> Truthy(opts.topN))
      && (r.topLargestFiles.Some? ==>
            var top := r.topLargestFiles.value;
            && |top| == SliceLength(|filtered|, opts.topN.value)
            && (forall i :: 0 <= i < |top| ==>
                  FileRecord(top[i].path, top[i].size) in all
                  && KeptBy(opts, env.stats, FileRecord(top[i].path, top[i].size)))
            && (forall i, j :: 0 <= i < j < |top| ==> top[i].size >= top[j].size)
            && (forall i, f :: 0 <= i < |top| && f in multiset(filtered) - multiset(Unformatted(top)) ==>
                  top[i].size >= f.size))
  {
    var all := AnalyzedFiles(opts, env);
    var filtered := FilterFiles(all, opts, env.stats);
    ScanLoaded(opts, env.root.readable, env.root.entries);
    assert Analysis(opts, env).result.topLargestFiles == TopOf(opts, filtered, env.fmt).0;
    if Truthy(opts.topN) {
      TopOfSpec(opts, filtered, env.fmt);
    }
  }

  /** Every file the walk loads lies below the root; the tree view is drawn
      exactly when the filters keep at most 1000 files, from those files
      (largest first when a top N was asked for), showing at most 50. */
  lemma AnalyzeTreeView(opts: AnalysisOptions, env: Environment)
    requires ValidPatterns(opts.excludePatterns)
    requires env.root.Directory? && |opts.path| > 0 && WellNamed(env.root.entries)
    ensures TreeView.AllInside(opts.path, AnalyzedFiles(opts, env))
    ensures var filtered := FilterFiles(AnalyzedFiles(opts, env), opts, env.stats);
      var shown := TopOf(opts, filtered, env.fmt).1;
      var r := Analysis(opts, env).result;
      && multiset(shown) == multiset(filtered)
      && (Truthy(opts.topN) ==> forall i, j :: 0 <= i < j < |shown| ==> shown[i].size >= shown[j].size)
      && (!Truthy(opts.topN) ==> shown == filtered)
      && TreeView.AllInside(opts.path, shown)
      && (r.treeView.Some? <==> |filtered| <= 1000)
      && (r.treeView.Some? ==> r.treeView.value == TreeView.GenerateCompactTreeView(shown, opts.path, 50, env.fmt))
  {
    var all := AnalyzedFiles(opts, env);
    var filtered := FilterFiles(all, opts, env.stats);
    ScanLoaded(opts, env.root.readable, env.root.entries);
    ScanInside(opts, env.root.readable, env.root.entries);
    InsideSubset(opts.path, all, filtered);
    ShownSpec(opts, filtered, env.fmt);
  }

  /** The list the tree view draws: the filtered files, reordered by the
      top-N sort when there is one. */
  lemma ShownSpec(opts: AnalysisOptions, filtered: seq<FileRecord>, fmt: Formatter)
    requires TreeView.AllInside(opts.path, filtered)
    ensures var shown := TopOf(opts, filtered, fmt).1;
      && multiset(shown) == multiset(filtered)
      && |shown| == |filtered|
      && (Truthy(opts.topN) ==> forall i, j :: 0 <= i < j < |shown| ==> shown[i].size >= shown[j].size)
      && (!Truthy(opts.topN) ==> shown == filtered)
      && TreeView.AllInside(opts.path, shown)
  {
    var shown := TopOf(opts, filtered, fmt).1;
    assert forall f :: f in shown ==> f in multiset(filtered);
    InsideSubset(opts.path, filtered, shown);
    assert |shown| == |multiset(shown)| == |filtered|;
  }

  /** Without a callback no progress is reported. With one: the scanning
      call, one call per loaded file counted against the first pass, then,
      when duplicates are sought, the detecting call and one call per
      path after the detector's own first one. */
  lemma AnalyzeProgress(opts: AnalysisOptions, env: Environment)
    requires ValidPatterns(opts.excludePatterns)
    requires env.root.Directory? && |opts.path| > 0 && WellNamed(env.root.entries)
    ensures var all := AnalyzedFiles(opts, env);
      var total := CountDir(env.root.readable, env.root.entries, WalkOptionsOf(opts), 0);
      var p := Analysis(opts, env).progress;
      && (!opts.progressCallback ==> p == [])
      && (opts.progressCallback ==>
            p == [Progress(0, 1, Some("Scanning directories..."))] + Reports(all, 0, total)
                 + (if opts.enableDuplicateDetection
                    then [Progress(0, |all|, Some("Detecting duplicates..."))] + DuplicateProgress(Paths(all), env.reader)
                    else []))
      && (opts.progressCallback ==>
            |p| == 1 + |all| + (if opts.enableDuplicateDetection then |all| + 2 else 0))
  {
    var all := AnalyzedFiles(opts, env);
    ScanLoaded(opts, env.root.readable, env.root.entries);
    ScanProgress(opts, env.root.readable, env.root.entries);
    ReportsNumbered(all, 0, CountDir(env.root.readable, env.root.entries, WalkOptionsOf(opts), 0));
  }
}
