/** `LargeFileDetector`, `EmptyFileDetector` and `FileFilter`
    (src/advanced-analysis.ts): selections and orderings of the file records
    the walk collected. The sorts are the stable `Sorting.SortDesc`; the
    second `fs.stat` the empty-file and date checks make is a lookup in a
    `StatTable`. */
module Detectors {
  import opened Wrappers
  import opened Sorting
  import opened Records

  function SizeKey(f: FileRecord): int {
    f.size
  }

  /** `{ path, size, sizeFormatted: formatSize(size) }` for each record. */
  function Formatted(fmt: Formatter, files: seq<FileRecord>): (r: seq<LargeFile>)
    ensures |r| == |files|
    ensures forall i :: 0 <= i < |files| ==> r[i] == LargeFile(files[i].path, files[i].size, fmt.size(files[i].size))
  {
    seq(|files|, i requires 0 <= i < |files| => LargeFile(files[i].path, files[i].size, fmt.size(files[i].size)))
  }

  /** The records a list of large files was made from. */
  function Unformatted(r: seq<LargeFile>): (files: seq<FileRecord>)
    ensures |files| == |r|
    ensures forall i :: 0 <= i < |r| ==> files[i] == FileRecord(r[i].path, r[i].size)
  {
    seq(|r|, i requires 0 <= i < |r| => FileRecord(r[i].path, r[i].size))
  }

  /** Formatting loses nothing but adds the formatted size. */
  lemma UnformatFormatted(fmt: Formatter, files: seq<FileRecord>)
    ensures Unformatted(Formatted(fmt, files)) == files
  {
  }

  // ---------------------------------------------------------------------
  // Large files
  // ---------------------------------------------------------------------

  function AtLeast(threshold: int): FileRecord -> bool {
    (f: FileRecord) => f.size >= threshold
  }

  /** `detectLargeFiles`: the files of at least `threshold` bytes, largest
      first, each with its formatted size. */
  function DetectLargeFiles(files: seq<FileRecord>, threshold: int, fmt: Formatter): (r: seq<LargeFile>)
    ensures |r| <= |files|
    ensures forall i :: 0 <= i < |r| ==> r[i].sizeFormatted == fmt.size(r[i].size)
    ensures forall i, j :: 0 <= i < j < |r| ==> r[i].size >= r[j].size
  {
    Formatted(fmt, SortDesc(Filter(files, AtLeast(threshold)), SizeKey))
  }

  /** A file is listed exactly when it has at least `threshold` bytes, and
      as often as it occurs in the input. */
  lemma LargeFilesExact(files: seq<FileRecord>, threshold: int, fmt: Formatter)
    ensures multiset(Unformatted(DetectLargeFiles(files, threshold, fmt))) == multiset(Filter(files, AtLeast(threshold)))
    ensures forall f :: f in Unformatted(DetectLargeFiles(files, threshold, fmt)) <==> f in files && f.size >= threshold
  {
    var large := Filter(files, AtLeast(threshold));
    FilterSpec(files, AtLeast(threshold));
    UnformatFormatted(fmt, SortDesc(large, SizeKey));
    forall f ensures f in SortDesc(large, SizeKey) <==> f in large {
      assert f in SortDesc(large, SizeKey) <==> f in multiset(SortDesc(large, SizeKey));
    }
  }

  /** Files of equal size are listed in the order the walk found them. */
  lemma LargeFilesStable(files: seq<FileRecord>, threshold: int, fmt: Formatter, size: nat)
    ensures WithKey(Unformatted(DetectLargeFiles(files, threshold, fmt)), SizeKey, size)
         == WithKey(Filter(files, AtLeast(threshold)), SizeKey, size)
  {
    var large := Filter(files, AtLeast(threshold));
    UnformatFormatted(fmt, SortDesc(large, SizeKey));
    SortDescStable(large, SizeKey, FileRecord("", size));
  }

  /** `getTopLargestFiles`: the first `count` files after sorting largest
      first (`slice(0, count)`, so a negative count drops files from the
      end). The sort happens in place, so the reordered input is returned as
      well. */
  function GetTopLargestFiles(files: seq<FileRecord>, count: int, fmt: Formatter): (r: (seq<LargeFile>, seq<FileRecord>))
    ensures |r.1| == |files| && multiset(r.1) == multiset(files)
    ensures forall i, j :: 0 <= i < j < |r.1| ==> r.1[i].size >= r.1[j].size
    ensures |r.0| == SliceLength(|files|, count)
    ensures Unformatted(r.0) == r.1[..|r.0|]
    ensures forall i :: 0 <= i < |r.0| ==> r.0[i].sizeFormatted == fmt.size(r.0[i].size)
  {
    var sorted := SortDesc(files, SizeKey);
    var top := Formatted(fmt, SliceTo(sorted, count));
    UnformatFormatted(fmt, SliceTo(sorted, count));
    (top, sorted)
  }

  /** The files kept are the largest: none left out is larger than any kept. */
  lemma TopAreLargest(files: seq<FileRecord>, count: int, fmt: Formatter)
    ensures var (top, sorted) := GetTopLargestFiles(files, count, fmt);
      forall i, j :: 0 <= i < |top| <= j < |sorted| ==> top[i].size >= sorted[j].size
  {
    var (top, sorted) := GetTopLargestFiles(files, count, fmt);
    forall i, j | 0 <= i < |top| <= j < |sorted| ensures top[i].size >= sorted[j].size {
      assert Unformatted(top)[i] == sorted[i];
    }
  }

  /** Every top file is one of the input files. */
  lemma TopFromInput(files: seq<FileRecord>, count: int, fmt: Formatter)
    ensures var top := GetTopLargestFiles(files, count, fmt).0;
      forall i :: 0 <= i < |top| ==> FileRecord(top[i].path, top[i].size) in files
  {
    var (top, sorted) := GetTopLargestFiles(files, count, fmt);
    forall i | 0 <= i < |top| ensures FileRecord(top[i].path, top[i].size) in files {
      assert Unformatted(top)[i] == sorted[i];
      assert sorted[i] in multiset(sorted);
    }
  }

  /** No input file left out of the top is larger than one kept, counting
      equal records separately. */
  lemma TopLeftOutSmaller(files: seq<FileRecord>, count: int, fmt: Formatter)
    ensures var top := GetTopLargestFiles(files, count, fmt).0;
      forall i, f :: 0 <= i < |top| && f in multiset(files) - multiset(Unformatted(top)) ==> top[i].size >= f.size
  {
    var r := GetTopLargestFiles(files, count, fmt);
    LeftOutOfTop(files, r.0, r.1);
  }

  /** The top of a size-sorted copy of `files` is at least as large as every
      file left out of it. */
  lemma LeftOutOfTop(files: seq<FileRecord>, top: seq<LargeFile>, sorted: seq<FileRecord>)
    requires multiset(sorted) == multiset(files)
    requires forall a, b :: 0 <= a < b < |sorted| ==> sorted[a].size >= sorted[b].size
    requires |top| <= |sorted| && Unformatted(top) == sorted[..|top|]
    ensures forall i, f :: 0 <= i < |top| && f in multiset(files) - multiset(Unformatted(top)) ==> top[i].size >= f.size
  {
    var k := |top|;
    assert multiset(files) - multiset(Unformatted(top)) == multiset(sorted[k..]) by {
      DropPrefix(sorted, k);
    }
    forall i, f | 0 <= i < k && f in multiset(sorted[k..]) ensures top[i].size >= f.size {
      assert Unformatted(top)[i] == sorted[i];
      SortedBeforeRest(sorted, k, i, f);
    }
  }

  /** In a list sorted largest first, a file before position `k` is at least
      as large as any file from `k` on. */
  lemma SortedBeforeRest(sorted: seq<FileRecord>, k: nat, i: nat, f: FileRecord)
    requires forall a, b :: 0 <= a < b < |sorted| ==> sorted[a].size >= sorted[b].size
    requires i < k <= |sorted| && f in multiset(sorted[k..])
    ensures sorted[i].size >= f.size
  {
    var j :| 0 <= j < |sorted[k..]| && sorted[k..][j] == f;
    assert sorted[k + j] == f;
  }

  // ---------------------------------------------------------------------
  // Empty files
  // ---------------------------------------------------------------------

  function ModifiedKey(e: EmptyFile): int {
    e.modified
  }

  /** The loop of `detectEmptyFiles`: each file of size 0 whose second stat
      succeeds, with that stat's modification time. */
  function EmptyCandidates(files: seq<FileRecord>, stats: StatTable): (r: seq<EmptyFile>)
    ensures |r| <= |files|
  {
    if |files| == 0 then []
    else
      (if files[0].size == 0 && files[0].path in stats then [EmptyFile(files[0].path, stats[files[0].path].mtime)] else [])
      + EmptyCandidates(files[1..], stats)
  }

  /** `detectEmptyFiles`: the candidates, most recently modified first. */
  function DetectEmptyFiles(files: seq<FileRecord>, stats: StatTable): (r: seq<EmptyFile>)
    ensures |r| <= |files|
    ensures forall i, j :: 0 <= i < j < |r| ==> r[i].modified >= r[j].modified
  {
    SortDesc(EmptyCandidates(files, stats), ModifiedKey)
  }

  /** The candidates are exactly the files of size 0 that still stat, each
      with its modification time. */
  lemma {:induction false} EmptyCandidatesExact(files: seq<FileRecord>, stats: StatTable, e: EmptyFile)
    ensures e in EmptyCandidates(files, stats)
        <==> e.path in stats && e.modified == stats[e.path].mtime && FileRecord(e.path, 0) in files
  {
    if |files| > 0 {
      EmptyCandidatesExact(files[1..], stats, e);
      assert files == [files[0]] + files[1..];
    }
  }

  /** An empty file is reported exactly when the walk recorded it with size 0
      and a second stat succeeds; it carries that stat's modification time. */
  lemma EmptyFilesExact(files: seq<FileRecord>, stats: StatTable, e: EmptyFile)
    ensures e in DetectEmptyFiles(files, stats)
        <==> e.path in stats && e.modified == stats[e.path].mtime && FileRecord(e.path, 0) in files
  {
    EmptyCandidatesExact(files, stats, e);
    var c := EmptyCandidates(files, stats);
    assert e in SortDesc(c, ModifiedKey) <==> e in multiset(SortDesc(c, ModifiedKey));
  }

  /** Each record of size 0 that still stats gives one candidate per
      occurrence. */
  lemma {:induction false} EmptyCandidatesCounted(files: seq<FileRecord>, stats: StatTable, e: EmptyFile)
    ensures multiset(EmptyCandidates(files, stats))[e]
         == if e.path in stats && e.modified == stats[e.path].mtime then multiset(files)[FileRecord(e.path, 0)] else 0
  {
    if |files| > 0 {
      EmptyCandidatesCounted(files[1..], stats, e);
      assert files == [files[0]] + files[1..];
    }
  }

  /** An empty file is reported as often as the walk recorded it with size 0,
      provided a second stat succeeds and gives its modification time. */
  lemma EmptyFilesCounted(files: seq<FileRecord>, stats: StatTable, e: EmptyFile)
    ensures multiset(DetectEmptyFiles(files, stats))[e]
         == if e.path in stats && e.modified == stats[e.path].mtime then multiset(files)[FileRecord(e.path, 0)] else 0
  {
    EmptyCandidatesCounted(files, stats, e);
  }

  /** Empty files with the same modification time are listed in the order
      the walk found them, as the sort is stable. */
  lemma EmptyFilesStable(files: seq<FileRecord>, stats: StatTable, t: int)
    ensures WithKey(DetectEmptyFiles(files, stats), ModifiedKey, t) == WithKey(EmptyCandidates(files, stats), ModifiedKey, t)
  {
    SortDescStable(EmptyCandidates(files, stats), ModifiedKey, EmptyFile("", t));
  }

  /** Only the files of size 0 matter, in their relative order. */
  lemma {:induction false} EmptyCandidatesOfZeros(files: seq<FileRecord>, stats: StatTable)
    ensures EmptyCandidates(files, stats) == EmptyCandidates(WithKey(files, SizeKey, 0), stats)
  {
    if |files| > 0 {
      EmptyCandidatesOfZeros(files[1..], stats);
      var rest := WithKey(files[1..], SizeKey, 0);
      if files[0].size == 0 {
        assert WithKey(files, SizeKey, 0) == [files[0]] + rest;
        assert ([files[0]] + rest)[1..] == rest;
      } else {
        assert WithKey(files, SizeKey, 0) == rest;
      }
    }
  }

  /** Sorting the records by size beforehand, as `getTopLargestFiles` does in
      place when no filter copied them, does not change the empty files
      reported: the files of size 0 keep their relative order. */
  lemma EmptyIgnoresSizeOrder(files: seq<FileRecord>, stats: StatTable)
    ensures DetectEmptyFiles(SortDesc(files, SizeKey), stats) == DetectEmptyFiles(files, stats)
  {
    SortDescStable(files, SizeKey, FileRecord("", 0));
    EmptyCandidatesOfZeros(files, stats);
    EmptyCandidatesOfZeros(SortDesc(files, SizeKey), stats);
  }

  // ---------------------------------------------------------------------
  // Filters
  // ---------------------------------------------------------------------

  function InSizeRange(minSize: Option<int>, maxSize: Option<int>): FileRecord -> bool {
    (f: FileRecord) => (minSize.None? || f.size >= minSize.value) && (maxSize.None? || f.size <= maxSize.value)
  }

  /** `filterBySize`: an absent bound does not restrict. */
  function FilterBySize(files: seq<FileRecord>, minSize: Option<int>, maxSize: Option<int>): (r: seq<FileRecord>)
    ensures forall f :: f in r <==>
      (f in files && (minSize.None? || f.size >= minSize.value) && (maxSize.None? || f.size <= maxSize.value))
    ensures multiset(r) <= multiset(files)
  {
    FilterSpec(files, InSizeRange(minSize, maxSize));
    Filter(files, InSizeRange(minSize, maxSize))
  }

  /** A filter keeps a single file exactly when it satisfies `p`. */
  lemma FilterOne(f: FileRecord, p: FileRecord -> bool)
    ensures Filter([f], p) == if p(f) then [f] else []
  {
    assert [f][1..] == [];
  }

  /** The size filter keeps the files in input order: it distributes over
      concatenation, and a single file stays exactly when it is within the
      bounds given. */
  lemma FilterBySizeInOrder(a: seq<FileRecord>, b: seq<FileRecord>, f: FileRecord, minSize: Option<int>, maxSize: Option<int>)
    ensures FilterBySize(a + b, minSize, maxSize) == FilterBySize(a, minSize, maxSize) + FilterBySize(b, minSize, maxSize)
    ensures FilterBySize([f], minSize, maxSize)
         == if (minSize.None? || f.size >= minSize.value) && (maxSize.None? || f.size <= maxSize.value) then [f] else []
  {
    FilterConcat(a, b, InSizeRange(minSize, maxSize));
    FilterOne(f, InSizeRange(minSize, maxSize));
  }

  /** Without bounds nothing is dropped. */
  lemma FilterBySizeUnbounded(files: seq<FileRecord>)
    ensures FilterBySize(files, None, None) == files
  {
    FilterAll(files, InSizeRange(None, None));
  }

  /** Applying the two bounds one after the other is applying them together. */
  lemma FilterBySizeSplit(files: seq<FileRecord>, minSize: int, maxSize: int)
    ensures FilterBySize(FilterBySize(files, Some(minSize), None), None, Some(maxSize))
         == FilterBySize(files, Some(minSize), Some(maxSize))
  {
    var both := InSizeRange(Some(minSize), Some(maxSize));
    var lower := InSizeRange(Some(minSize), None);
    var upper := InSizeRange(None, Some(maxSize));
    var low := Filter(files, lower);
    FilterSpec(files, lower);
    assert forall f :: f in low ==> upper(f) == both(f);
    FilterSame(low, upper, both);
    FilterFilter(files, lower, both);
  }

  /** Filters that agree on every element give the same result. */
  lemma {:induction false} FilterSame(s: seq<FileRecord>, p: FileRecord -> bool, q: FileRecord -> bool)
    requires forall f :: f in s ==> p(f) == q(f)
    ensures Filter(s, p) == Filter(s, q)
  {
    if |s| > 0 {
      assert s[0] in s;
      assert forall f :: f in s[1..] ==> f in s;
      FilterSame(s[1..], p, q);
    }
  }

  function InDateRange(dateFrom: Option<int>, dateTo: Option<int>, stats: StatTable): FileRecord -> bool {
    (f: FileRecord) => f.path in stats
      && (dateFrom.None? || stats[f.path].mtime >= dateFrom.value)
      && (dateTo.None? || stats[f.path].mtime <= dateTo.value)
  }

  /** `filterByDate`: with no bound the very same list comes back; otherwise
      a file stays when it still stats and its modification time lies
      within the bounds given. */
  function FilterByDate(files: seq<FileRecord>, dateFrom: Option<int>, dateTo: Option<int>, stats: StatTable): (r: seq<FileRecord>)
    ensures dateFrom.None? && dateTo.None? ==> r == files
    ensures (dateFrom.Some? || dateTo.Some?) ==> forall f :: f in r <==>
      (f in files && f.path in stats
       && (dateFrom.None? || stats[f.path].mtime >= dateFrom.value)
       && (dateTo.None? || stats[f.path].mtime <= dateTo.value))
    ensures multiset(r) <= multiset(files)
  {
    if dateFrom.None? && dateTo.None? then files
    else
      FilterSpec(files, InDateRange(dateFrom, dateTo, stats));
      Filter(files, InDateRange(dateFrom, dateTo, stats))
  }

  /** The date filter keeps the files in input order: it distributes over
      concatenation, and with a bound a single file stays exactly when it
      still stats within the bounds given. */
  lemma FilterByDateInOrder(a: seq<FileRecord>, b: seq<FileRecord>, f: FileRecord,
                            dateFrom: Option<int>, dateTo: Option<int>, stats: StatTable)
    ensures FilterByDate(a + b, dateFrom, dateTo, stats)
         == FilterByDate(a, dateFrom, dateTo, stats) + FilterByDate(b, dateFrom, dateTo, stats)
    ensures (dateFrom.Some? || dateTo.Some?) ==>
      FilterByDate([f], dateFrom, dateTo, stats)
      == if f.path in stats
            && (dateFrom.None? || stats[f.path].mtime >= dateFrom.value)
            && (dateTo.None? || stats[f.path].mtime <= dateTo.value)
         then [f] else []
  {
    FilterConcat(a, b, InDateRange(dateFrom, dateTo, stats));
    FilterOne(f, InDateRange(dateFrom, dateTo, stats));
  }
}
