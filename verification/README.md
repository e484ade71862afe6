# dir-analysis-tool, modelled in Dafny

This project models the analysis core of `dir-analysis-tool`, a command-line
disk-usage analyser written in TypeScript, and proves properties of that model.
Given a directory, the analyser does the following:

- It walks the directory twice. The first pass counts files, to size the
  progress bar. The second pass records every file it can stat.
- It classifies each file into one of seven categories by its extension.
- On request, it finds large files, duplicate files (by content digest),
  empty files and the top N largest files.
- It can filter by size and by modification date.
- It draws a compact tree view of the files.
- It can export the result as CSV.
- The HTML report escapes text and computes the data behind its two charts.

The Dafny modules follow the source files:

| module | file | models |
|---|---|---|
| `Classifier` | `classifier.dfy` | `src/classifier.ts`: the extension table, `getFileExtension`, `getFileType`, the counters |
| `Exclusion` | `exclusion.dfy` | `shouldExcludeDirectory` and `shouldExcludeFile` of `src/utils.ts`, with the glob-to-regular-expression translation and `RegExp.test` |
| `Walker` | `walker.dfy` | `countFiles` and `analyzeDirectory` of `src/analyzer.ts` over an immutable directory tree |
| `Detectors` | `detectors.dfy` | `LargeFileDetector`, `EmptyFileDetector` and `FileFilter` of `src/advanced-analysis.ts` |
| `Duplicates` | `duplicates.dfy` | `DuplicateDetector` of `src/advanced-analysis.ts` |
| `TreeView` | `treeview.dfy` | `src/tree-view.ts`: `buildTree`, `sortTreeNodes`, `renderTree`, `generateTreeView`, `generateCompactTreeView` |
| `CsvExport` | `export.dfy` | `src/export.ts`: `exportAnalysis`, `exportLargeFiles`, `exportDuplicates`, with a CSV reader to state what a reader gets back |
| `HtmlReport` | `htmlreport.dfy` | `escapeHtml`, `getFileTypeChartData`, `getLargestFilesChartData` and `countNonZeroTypes` of `src/html-report.ts` |
| `Analyzer` | `analyzer.dfy` | `DirectoryAnalyzer.analyze` of `src/analyzer.ts` |
| `Wrappers`, `Strings`, `Sorting`, `Records` | | helpers: `Option`/`Result`, string functions, a stable insertion sort and a filter, and the record shapes of `src/types.ts` |

The outside world enters `Analyze` as parameters, in an `Environment` value:

- the root's `fs.stat`;
- the directory tree below the root, where a directory's listing can fail and
  a file's stat can fail;
- a table of later `fs.stat` results, which the duplicate detector, the empty
  file detector and the date filter read;
- the file contents and the digest that the duplicate detector uses;
- the two size formatters.

The progress callback is modelled as the list of calls the analyser makes to it.

The analyser passes `options.maxDepth || -1` to the walk, so a `maxDepth` of 0
means "no bound", like an absent one. `Analyzer.DepthBound` models this.

## Model

| member | source | states |
|---|---|---|
| Classifier.ListedCategory | src/classifier.ts:20-32 | an extension in a category's list is classified under that category |
| Classifier.TablesDisjoint | src/classifier.ts:20-32 | no extension is in two lists, so the order in which the table is searched never decides a classification |
| Classifier.ExtensionSpec | src/classifier.ts:51-57 | the extension is empty exactly when the name has no dot or ends in one; otherwise it is the lower-cased tail from the last dot, with no other dot in it |
| Classifier.GetFileTypeIsTableSearch | src/classifier.ts:59-66 | the lookup returns the first category in table order whose list holds the extension, and `other` when no list holds it |
| Classifier.GetFileTypeSpec | src/classifier.ts:59-66 | a category other than `other` is chosen exactly for the extensions in its list |
| Classifier.CategoryOfSpec | src/classifier.ts:45-66 | a file lands in a named category exactly when its lower-cased last dot-segment is in that category's list |
| Classifier.NoExtensionIsOther | src/classifier.ts:51-65 | a name without an extension is always `other` |
| Classifier.DoubleExtensionsNeverMatch | src/classifier.ts:31 | the listed `.tar.gz` and `.tar.bz2` can never be looked up, because only the last dot-segment is an extension |
| Classifier.TarGzIsArchive | src/classifier.ts:31 | `x.tar.gz` still counts as an archive, through `.gz` |
| Classifier.CaseInsensitive | src/classifier.ts:56 | two names that lower-case alike land in the same category |
| Classifier.ClassifyFileCounts | src/classifier.ts:45-49 | classifying a file raises exactly one counter, the one for its category, by one |
| Classifier.FileClassifier.Reset | src/classifier.ts:72-82 | after a reset every counter is zero |
| Classifier.ClassifyAfterReset | src/classifier.ts:45-82 | after a reset, each counter equals the number of names classified since then that fall in its category, and the counters add up to the number of names |
| Exclusion.Compile | src/utils.ts:18 | each `*` of a pattern becomes a run of any characters, each `.` becomes any single character, and every other character stands for itself |
| Exclusion.SearchIsTest | src/utils.ts:18-19 | the matcher succeeds exactly when some stretch of the name matches the whole pattern, which is what an unanchored `RegExp.test` does |
| Exclusion.DefaultsAlwaysExcluded | src/utils.ts:12-13 | `node_modules`, `.git`, `.svn`, `.hg`, `dist`, `build` and `.cache` are excluded as directories whatever the patterns |
| Exclusion.DirectoryWithoutGlobs | src/utils.ts:11-23 | without globs, a directory is excluded exactly when its name equals a built-in name or a pattern |
| Exclusion.FileWithoutGlobs | src/utils.ts:25-34 | without globs, a file is excluded exactly when its name ends with some pattern |
| Exclusion.EmptyPatternExcludesAll | src/utils.ts:32 | the empty pattern excludes every file |
| Exclusion.MorePatternsExcludeMoreFiles | src/utils.ts:25-34 | adding patterns never un-excludes a file |
| Exclusion.MorePatternsExcludeMoreDirectories | src/utils.ts:11-23 | adding patterns never un-excludes a directory |
| Exclusion.StarExcludesAll | src/utils.ts:16-19 | the pattern `*` excludes every name |
| Exclusion.SearchNeedsMinLength | src/utils.ts:18-19 | a name shorter than a glob's characters other than `*` never matches it |
| Exclusion.StarDotLogExamples | src/utils.ts:27-30 | `*.log` is unanchored and its `.` matches any character: it excludes `a.log`, `a.log.bak` and `xlog`, but not `log` |
| Walker.CountDirIsFileVisits | src/analyzer.ts:170-205 | the first pass counts exactly the file entries that the exclusion, recursion and depth rules let through |
| Walker.VisitsDirAllowed | src/analyzer.ts:207-245 | no excluded name is visited; no file lies deeper than a non-negative `maxDepth`, and no folder lies more than one level deeper; without recursion, only the root's own entries are visited |
| Walker.StartWalk | src/analyzer.ts:49-56 | an analysis starts with every total at zero, no records, no progress calls, and all category counters at zero |
| Walker.ReplaySpec | src/analyzer.ts:245-267 | each folder visit adds one folder; each file whose stat succeeds adds one file, its size, its record, one count in its category and, with reporting on, one progress call numbered with the new file count |
| Walker.ReportsNumbered | src/analyzer.ts:263-267 | the per-file progress calls are numbered consecutively and carry the file's path and the first pass's total |
| Walker.CountBoundsFiles | src/analyzer.ts:170-277 | the files the second pass loads plus those whose stat failed equal the first pass's count, so the count is never below the files loaded |
| Walker.WalkFromStart | src/analyzer.ts:207-277 | a whole walk's folder count, records, file count, total size, category counters and progress calls are all determined by the entries the rules let through |
| Detectors.DetectLargeFiles | src/advanced-analysis.ts:90-102 | large files come largest first, each with its formatted size, and there are never more of them than input files |
| Detectors.LargeFilesExact | src/advanced-analysis.ts:94-95 | a file is listed exactly when it has at least `threshold` bytes, as often as it occurs in the input |
| Detectors.LargeFilesStable | src/advanced-analysis.ts:96 | files of equal size keep the order in which the walk found them |
| Detectors.GetTopLargestFiles | src/advanced-analysis.ts:104-116 | the input is reordered in place, largest first, as a permutation; the result is its first `count` files under `slice`'s clamping, each formatted |
| Detectors.TopAreLargest | src/advanced-analysis.ts:108-110 | no file left out of the top list is larger than any file in it |
| Detectors.TopFromInput | src/advanced-analysis.ts:108-115 | every top file is one of the input files |
| Detectors.TopLeftOutSmaller | src/advanced-analysis.ts:108-110 | no input file left out (counting equal records separately) is larger than a reported one |
| Detectors.DetectEmptyFiles | src/advanced-analysis.ts:120-142 | empty files come most recently modified first, and there are never more of them than input files |
| Detectors.EmptyFilesExact | src/advanced-analysis.ts:125-137 | a file is reported empty exactly when it was recorded with size 0 and a second stat succeeds; the entry carries that stat's modification time |
| Detectors.EmptyFilesCounted | src/advanced-analysis.ts:125-141 | each entry appears as often as the walk recorded its path with size 0, when the second stat succeeds and gives its time, and never otherwise |
| Detectors.EmptyFilesStable | src/advanced-analysis.ts:139-141 | entries with the same modification time keep the walk's order, as the stable sort does |
| Detectors.EmptyIgnoresSizeOrder | src/advanced-analysis.ts:108-141 | sorting the records by size first, as the top-N sort does in place, does not change the empty files reported |
| Detectors.FilterBySize | src/advanced-analysis.ts:146-156 | a file is kept exactly when it meets every bound given, and nothing is added |
| Detectors.FilterBySizeUnbounded | src/advanced-analysis.ts:151-155 | with no bound, nothing is dropped |
| Detectors.FilterBySizeSplit | src/advanced-analysis.ts:152-153 | applying the minimum and then the maximum is the same as applying both at once |
| Detectors.FilterByDate | src/advanced-analysis.ts:158-182 | with no bound the same list comes back; otherwise a file is kept exactly when it still stats and its modification time is within the bounds |
| Detectors.FilterBySizeInOrder | src/advanced-analysis.ts:151-155 | the kept files stay in input order: filtering a concatenation filters each part, and a single file stays exactly when it is within the bounds |
| Detectors.FilterByDateInOrder | src/advanced-analysis.ts:165-178 | the kept files stay in input order, as the loop pushes them: filtering a concatenation filters each part, and with a bound a single file stays exactly when it still stats within the bounds |
| Duplicates.ProcessFiles | src/advanced-analysis.ts:32-52 | looking up a digest gives exactly the readable paths with that digest, in processing order |
| Duplicates.DuplicateProgress | src/advanced-analysis.ts:19-50 | one call before anything is read, then one call per path, numbered consecutively; a call names its path only when the file could be read |
| Duplicates.DetectDuplicates | src/advanced-analysis.ts:85 | groups come with the most wasted space first |
| Duplicates.GroupsSound | src/advanced-analysis.ts:61-83 | a group lists exactly the readable files with its digest, in processing order, and at least two of them; its size comes from a fresh stat of its first file, and its wasted space is that size once per extra copy |
| Duplicates.GroupsComplete | src/advanced-analysis.ts:61-83 | every digest shared by two or more readable files gets a group, provided its first file stats |
| Duplicates.GroupHashesDistinct | src/advanced-analysis.ts:36-39 | no two groups share a digest, so no file is in two groups |
| Duplicates.SameContentSameGroup | src/advanced-analysis.ts:54-59 | a readable file with the same contents as a grouped file is in that group |
| Duplicates.GroupsTieOrder | src/advanced-analysis.ts:85 | groups that waste the same space keep the order in which their digests were first seen |
| TreeView.RelParts | src/tree-view.ts:33-36 | a file's relative path has no parts exactly when it is the root itself, and every part is a proper name |
| TreeView.FindFolder | src/tree-view.ts:43-55 | the folder lookup finds a child folder with that name exactly when one exists |
| TreeView.SortByPath | src/tree-view.ts:30 | the files are permuted into path order |
| TreeView.BuildTreeLeaves | src/tree-view.ts:18-72 | the tree shows every file except the root itself, each exactly once |
| TreeView.BuildTreeShape | src/tree-view.ts:18-72 | every level lists directories first and then files, each group by name, and each directory appears as a single node |
| TreeView.SortTreeSpec | src/tree-view.ts:74-90 | sorting orders every level, keeps directories merged, and moves no node to another folder |
| TreeView.BuildTreeOrderIndependent | src/tree-view.ts:29-32 | for files with distinct paths, the tree does not depend on the order in which the files arrive |
| TreeView.GenerateTreeView | src/tree-view.ts:13-16 | the caller's array is left as a path-sorted permutation of itself |
| TreeView.CompactTreeView | src/tree-view.ts:116-128 | within the limit, the compact view is the full view; past it, it is the full view of the first `maxFiles` files followed by a count of those left out |
| TreeView.RenderNodeLines | src/tree-view.ts:92-114 | the drawing has one line per node, down to the depth limit |
| TreeView.RenderNodeShape | src/tree-view.ts:92-114 | past the depth limit nothing is drawn; otherwise the drawing opens with the node's line (prefix, corner or tee connector, folder or file icon, name, and a file's size in brackets), every line starts with the prefix handed down, and the last line is complete |
| TreeView.ShallowVisible | src/tree-view.ts:92-94 | a tree no deeper than the limit is drawn whole |
| CsvExport.LargeFilesRoundTrip | src/export.ts:57-66 | a CSV reader gets back every large file, with its path, size and formatted size, in order |
| CsvExport.ExportDuplicatesRead | src/export.ts:68-79 | a reader gets the header and one six-field record per duplicate file, group by group; the record of the `j`-th file of the `gi`-th group holds the group number `gi + 1`, the file, the group's size in bytes and formatted, its number of files and its formatted wasted space |
| CsvExport.ExportAnalysisRead | src/export.ts:19-55 | a reader gets the header, the summary record, then the type records (key and count, in key order), the large-file records (path, size in bytes and formatted) and the duplicate records (file, group size, and the details naming group `gi + 1`, with the totals on a group's first file and "(duplicate)" on the rest), all six fields wide |
| CsvExport.AnalysisBodyCounts | src/export.ts:28-32 | after the summary comes one `FileType` record per non-empty category, in key order, with its key and count |
| CsvExport.AnalysisLargeRecords | src/export.ts:35-39 | after the type records comes one `LargeFile` record per large file, in list order, with its path and sizes |
| CsvExport.AnalysisGroupRecords | src/export.ts:42-51 | the duplicate records come last, group by group, each with its file, the group's size and the details of group `gi + 1` |
| CsvExport.AnalysisBodyShape | src/export.ts:25-52 | every row is six cells wide, and there is one row per record the result reports |
| HtmlReport.ReplaceAll | src/html-report.ts:698-702 | a global one-character replace leaves none of that character when the replacement lacks it, and brings in nothing else |
| HtmlReport.EscapeHtmlIsEach | src/html-report.ts:697-703 | the five passes escape each character on its own, because no pass touches what an earlier pass brought in |
| HtmlReport.EscapeHtmlRoundTrip | src/html-report.ts:697-703 | decoding the five entities gives back exactly the text that was escaped |
| HtmlReport.EscapeHtmlPlain | src/html-report.ts:697-703 | text with none of the five characters passes through unchanged |
| HtmlReport.FileTypeChartSpec | src/html-report.ts:656-678 | one bar per non-empty category, in key order, labelled with the category and as high as its counter; the bars add up to the number of files classified |
| HtmlReport.TypeLabelsDistinct | src/html-report.ts:657-665 | different categories get different chart labels |
| HtmlReport.CountNonZeroTypesSpec | src/html-report.ts:695-697 | the summary card's type count equals the number of non-empty categories and the number of chart bars; it is at most seven, and zero exactly when no file was classified |
| HtmlReport.LastSegment | src/html-report.ts:686 | the label's base is the tail after the last slash or backslash and holds neither |
| HtmlReport.LastSegmentAfter | src/html-report.ts:686 | after a separator, or at the start, a name without separators is the whole last segment |
| HtmlReport.FileNameOfJoin | src/html-report.ts:686 | for any directory joined with a name without separators, as the walker builds paths, the chart's file name is that name |
| HtmlReport.ShortLabelSpec | src/html-report.ts:687 | a label is never over twenty characters; a name that fits is shown whole, and a longer one is shown as its first seventeen characters and an ellipsis |
| HtmlReport.LargestFilesChartSpec | src/html-report.ts:680-693 | one bar per top file, in list order, as high as the file's size, under a label of at most twenty characters; no bars when the list is missing or empty |
| HtmlReport.LargestFilesChartLabel | src/html-report.ts:685-688 | a file whose path joins a directory and a name is labelled with the name when it has at most twenty characters, and otherwise with its first seventeen characters and `...` |
| Analyzer.DepthBound | src/analyzer.ts:73 | a missing or zero `maxDepth` means no depth bound; any other value is used as given |
| Analyzer.ChildPath | src/analyzer.ts:224 | joining an entry's name onto its directory's path gives the path one level down |
| Analyzer.ScanInside | src/analyzer.ts:207-261 | every file the walk records lies below the root |
| Analyzer.FilterFiles | src/analyzer.ts:136-143 | a file survives the filters exactly when it meets the given size bounds and, when a date bound is given, still stats within the date bounds; with no bound the walk's list is used as it is |
| Analyzer.FilterFilesInOrder | src/analyzer.ts:132-143 | the surviving files keep the walk's order: filtering a concatenation filters each part, and a single file survives exactly when the filters keep it |
| Analyzer.Extend | src/analyzer.ts:86-96 | the optional analyses leave the summary fields as the walk left them |
| Analyzer.AnalyzeFails | src/analyzer.ts:58-66 | the analysis fails exactly when the root cannot be stat'ed or is not a directory, with the message naming the path and the reason |
| Analyzer.ScanCounts | src/analyzer.ts:72-84 | the walk's records, folders, files and total size are those of the entries the rules let through, and the first pass's count is the files loaded plus the stat failures |
| Analyzer.ScanProgress | src/analyzer.ts:76-84 | with a callback, the walk makes one call per loaded file against the first pass's count; without one, it makes none |
| Analyzer.AnalyzeSummary | src/analyzer.ts:86-93 | the result carries the path as given, the folders and files the walk let through, their total size in bytes and megabytes, and one category count per file |
| Analyzer.AnalyzeLargeAndDuplicates | src/analyzer.ts:97-132 | large files and duplicate groups are reported exactly when asked for, over all the files the walk loaded; duplicate statistics exist exactly when some group was found, and they add up the groups' wasted space |
| Analyzer.AnalyzeTopFiles | src/analyzer.ts:134-151 | the top list exists exactly when `topN` is given and non-zero; it is largest first, holds only files that pass the filters, and leaves out no larger kept file |
| Analyzer.AnalyzeEmptyFiles | src/analyzer.ts:153-156 | empty files exist exactly when asked for, and are those of all the walk's files, even after the top-N sort has reordered that list |
| Analyzer.AnalyzeTreeView | src/analyzer.ts:158-165 | the tree view exists exactly when the filters keep at most 1000 files; it is the compact view of those files, largest first when a top N was asked for, and every file lies below the root |
| Analyzer.AnalyzeProgress | src/analyzer.ts:67-115 | without a callback there are no calls; with one, there is the scanning call, one call per loaded file, then, when duplicates are sought, the detecting call and the detector's calls |

## Left out

- Records.JoinPath: models `path.join` for a plain entry name, but keeps the
  directory as given. Node's normalisation is not modelled: it drops a leading
  `.` segment and resolves `..` and doubled separators. For the default root
  `.`, the model therefore builds `./a.txt` where Node builds `a.txt`.
- Analyzer.Analyze: the file paths in its result (large, top, empty and
  duplicate files) begin with the root exactly as given. For a root such as `.`
  or `./src`, the source's paths have that prefix normalised away. Sizes,
  counts, categories and the order of the files are not affected.
- The tree builder requires every file to be the root or to lie
  below it with proper segments, which is what the walk produces
  (`Analyzer.ScanInside`). `path.relative` for paths outside the root is not
  modelled.
- `Analyze` requires the names a file system hands out to be proper names
  without `/`, and a directory root to have a non-empty path. These are
  assumptions about the world, not checks the source makes.
- `Analyze` requires every exclusion pattern that contains `*` to use no other
  regular-expression metacharacter than `.`. Only `*` and `.` are given their
  regular-expression meaning; other metacharacters, and patterns that are not
  valid regular expressions (which throw), are not modelled.
- File system access, hashing and size formatting are parameters. The model
  does not compute MD5 or `pretty-bytes` output, and `formatSizeInMB`'s rounding
  is the text a formatter gives for a byte count.
- A single table of later `fs.stat` results stands for every stat after the
  walk. A file that changes between two of those stats is not modelled.
- `Promise.all` over a batch of 50 files is modelled as processing the paths one
  after another, in order. That is one of the orders the source allows.
- `console.warn` messages for unreadable directories and files are not modelled;
  the walk just skips those entries.
- CsvExport.LargeFilesRoundTrip: holds only for paths and formatted sizes
  without quotes, line breaks or commas; the source does not escape them, so
  other values give CSV that does not read back.
- Sizes are unbounded `nat`s. In the source they are float64 numbers: file
  sizes, `totalSize`, the wasted space `size * (files.length - 1)` and its
  total are exact only up to 2^53, and from 10^21 on `${size}` prints in
  exponent form. The model's sums, products and printed integers match the
  source only below those bounds.
- CsvExport.ExportAnalysisRead: holds only for paths, formatted sizes and
  details without quotes, line breaks or commas; the source does not escape
  them, so other values give CSV that does not read back.
- CsvExport.ExportDuplicatesRead: holds only for files and formatted sizes
  without quotes, line breaks or commas, for the same reason.
- HtmlReport.LargestFilesChartLabel: counts Dafny characters, as
  HtmlReport.ShortLabelSpec does, so it differs from the source for names
  outside the Basic Multilingual Plane.
- TreeView.RenderNodeShape: stated for names and size texts without line
  breaks. A name holding a newline splits its own line in the source too, and
  the text after the break does not start with the prefix.
- TreeView.PathLe: compares paths in code-point order, while `localeCompare`
  uses the locale's collation. Paths that differ in case or accents can
  therefore sort differently, and so can names under TreeView.NodeLe.
- Classifier.GetFileExtension: lower-cases ASCII letters only. JavaScript's
  `toLowerCase` also maps other letters: for example, the Kelvin sign
  (U+212A) becomes `k`. So the source classifies `Main.\u212At` as code,
  through `.kt`, and the model classifies it as `other`.
- Exclusion.Compile: matches one Dafny character per `.`, and
  Exclusion.SearchNeedsMinLength counts Dafny characters. A non-Unicode
  JavaScript regular expression works on UTF-16 code units, so a character
  outside the Basic Multilingual Plane takes two units. Such a name needs
  two `.` to match, and it counts twice toward the minimum length.
- HtmlReport.ShortLabelSpec: lengths count Dafny characters, while JavaScript
  counts UTF-16 code units, so a name outside the Basic Multilingual Plane can be
  cut at a different point.
- HtmlReport.FileTypeChartSpec: the `|| key` fallback for an unknown key is not
  modelled, because the counters have exactly the seven known keys.
- Analyzer.AnalyzeSummary: `totalSizeMB` is the formatter's text for the byte
  total, not the rounded number itself.
- The analyser's mutable fields (`totalSize`, `allFiles`, `processedFiles`, and
  the rest) are reset at the start of every analysis. The model starts each
  analysis from `Walker.StartWalk`, so state left over from earlier runs is not
  modelled. `currentDepth` is never read and is left out.
- The rest of the repository is not part of this model: the command-line
  interface, configuration loading, interactive mode, the progress bar, and the
  HTML report's page layout.
