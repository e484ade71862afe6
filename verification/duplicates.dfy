/** `DuplicateDetector` (src/advanced-analysis.ts): files are grouped by the
    MD5 digest of their contents in a `Map`, whose keys keep the order they
    were first seen in; every group of two or more files whose first file can
    still be stat'ed becomes a `DuplicateFileGroup`, and the groups are sorted
    by wasted space, largest first.

    The contents `fs.readFile` returns and the digest function are parameters
    (`Reader`): a path missing from `contents` is one that cannot be read. */
module Duplicates {
  import opened Wrappers
  import opened Sorting
  import opened Records

  datatype Reader = Reader(contents: map<string, seq<bv8>>, md5: seq<bv8> -> string)
  {
    /** `calculateFileHash`, or `None` when the read fails. */
    function HashOf(p: string): Option<string> {
      if p in contents then Some(md5(contents[p])) else None
    }
  }

  /** One entry of `fileHashes`: a digest and the paths with it, in the order
      they were processed. */
  datatype Entry = Entry(hash: string, files: seq<string>)

  function EntryHash(e: Entry): string {
    e.hash
  }

  function Keys(t: seq<Entry>): (ks: seq<string>)
    ensures |ks| == |t|
    ensures forall i :: 0 <= i < |t| ==> ks[i] == t[i].hash
  {
    seq(|t|, i requires 0 <= i < |t| => t[i].hash)
  }

  /** `fileHashes.get(h)`, or the empty list when `h` is not a key. */
  function FilesOf(t: seq<Entry>, h: string): seq<string> {
    if |t| == 0 then []
    else if t[0].hash == h then t[0].files
    else FilesOf(t[1..], h)
  }

  /** The `has`/`set`/`get(...).push` sequence of `processFile`: a known
      digest gets the path appended to its list, a new one is added at the
      end with a list of just this path. */
  function AddPath(t: seq<Entry>, h: string, p: string): seq<Entry> {
    if |t| == 0 then [Entry(h, [p])]
    else if t[0].hash == h then [t[0].(files := t[0].files + [p])] + t[1..]
    else [t[0]] + AddPath(t[1..], h, p)
  }

  lemma {:induction false} AddPathKeys(t: seq<Entry>, h: string, p: string)
    ensures Keys(AddPath(t, h, p)) == if h in Keys(t) then Keys(t) else Keys(t) + [h]
  {
    if |t| > 0 {
      assert t == [t[0]] + t[1..];
      KeysCons(t[0], t[1..]);
      if t[0].hash == h {
        KeysCons(t[0].(files := t[0].files + [p]), t[1..]);
      } else {
        AddPathKeys(t[1..], h, p);
        KeysCons(t[0], AddPath(t[1..], h, p));
        assert h in Keys(t) <==> h in Keys(t[1..]);
      }
    } else {
      assert Keys([Entry(h, [p])]) == [h];
    }
  }

  lemma KeysCons(x: Entry, t: seq<Entry>)
    ensures Keys([x] + t) == [x.hash] + Keys(t)
  {
    var l, r := Keys([x] + t), [x.hash] + Keys(t);
    assert |l| == |r|;
    forall i | 0 <= i < |l| ensures l[i] == r[i] {
      if i > 0 { assert ([x] + t)[i] == t[i - 1]; }
    }
  }

  lemma {:induction false} AddPathFiles(t: seq<Entry>, h: string, p: string, k: string)
    ensures FilesOf(AddPath(t, h, p), k) == if k == h then FilesOf(t, k) + [p] else FilesOf(t, k)
  {
    if |t| > 0 && t[0].hash != h {
      AddPathFiles(t[1..], h, p, k);
      assert AddPath(t, h, p)[1..] == AddPath(t[1..], h, p);
    }
  }

  /** With distinct keys, each entry's list is what a lookup of its key gives. */
  lemma {:induction false} FilesOfEntry(t: seq<Entry>, i: nat)
    requires DistinctKeys(t, EntryHash)
    requires i < |t|
    ensures FilesOf(t, t[i].hash) == t[i].files
  {
    if i > 0 {
      assert t[0].hash != t[i].hash by { assert EntryHash(t[0]) != EntryHash(t[i]); }
      assert DistinctKeys(t[1..], EntryHash) by {
        forall a, b | 0 <= a < b < |t[1..]| ensures EntryHash(t[1..][a]) != EntryHash(t[1..][b]) {
          assert EntryHash(t[a + 1]) != EntryHash(t[b + 1]);
        }
      }
      FilesOfEntry(t[1..], i - 1);
    }
  }

  /** A key with a non-empty lookup is the key of some entry. */
  lemma {:induction false} FilesOfKey(t: seq<Entry>, h: string)
    requires FilesOf(t, h) != []
    ensures exists i :: 0 <= i < |t| && t[i].hash == h
  {
    if t[0].hash != h {
      FilesOfKey(t[1..], h);
      var i :| 0 <= i < |t[1..]| && t[1..][i].hash == h;
      assert t[i + 1].hash == h;
    }
  }

  // ---------------------------------------------------------------------
  // Processing the paths
  // ---------------------------------------------------------------------

  /** The table after processing `paths` one after the other; a path that
      cannot be read is only counted. The source runs fifty at a time
      concurrently; this is the order in which they are started. */
  function Process(paths: seq<string>, rd: Reader): seq<Entry>
    decreases |paths|
  {
    if |paths| == 0 then []
    else
      var t := Process(paths[..|paths| - 1], rd);
      var p := paths[|paths| - 1];
      match rd.HashOf(p)
      case None => t
      case Some(h) => AddPath(t, h, p)
  }

  /** The digests of the readable paths, in order. */
  function ReadableHashes(paths: seq<string>, rd: Reader): seq<string>
    decreases |paths|
  {
    if |paths| == 0 then []
    else
      ReadableHashes(paths[..|paths| - 1], rd)
      + (match rd.HashOf(paths[|paths| - 1]) case None => [] case Some(h) => [h])
  }

  /** Each value once, at its first occurrence. */
  function Dedup(s: seq<string>): (d: seq<string>)
    decreases |s|
  {
    if |s| == 0 then []
    else
      var d := Dedup(s[..|s| - 1]);
      if s[|s| - 1] in d then d else d + [s[|s| - 1]]
  }

  function HashIs(rd: Reader, h: string): string -> bool {
    p => rd.HashOf(p) == Some(h)
  }

  /** The readable paths whose digest is `h`, in order. */
  function Matching(paths: seq<string>, rd: Reader, h: string): seq<string> {
    Filter(paths, HashIs(rd, h))
  }

  lemma {:induction false} ProcessKeys(paths: seq<string>, rd: Reader)
    ensures Keys(Process(paths, rd)) == Dedup(ReadableHashes(paths, rd))
    decreases |paths|
  {
    if |paths| > 0 {
      var init := paths[..|paths| - 1];
      var p := paths[|paths| - 1];
      ProcessKeys(init, rd);
      var t := Process(init, rd);
      var hs := ReadableHashes(init, rd);
      match rd.HashOf(p)
      case None =>
        assert ReadableHashes(paths, rd) == hs + [];
        assert hs + [] == hs;
      case Some(h) =>
        AddPathKeys(t, h, p);
        var all := hs + [h];
        assert ReadableHashes(paths, rd) == all;
        assert all[..|all| - 1] == hs;
    }
  }

  /** The keys are distinct. */
  lemma {:induction false} ProcessDistinct(paths: seq<string>, rd: Reader)
    ensures DistinctKeys(Process(paths, rd), EntryHash)
  {
    var t := Process(paths, rd);
    ProcessKeys(paths, rd);
    DedupDistinct(ReadableHashes(paths, rd));
    forall i, j | 0 <= i < j < |t| ensures EntryHash(t[i]) != EntryHash(t[j]) {
      assert Keys(t)[i] != Keys(t)[j];
    }
  }

  lemma {:induction false} DedupDistinct(s: seq<string>)
    ensures forall i, j :: 0 <= i < j < |Dedup(s)| ==> Dedup(s)[i] != Dedup(s)[j]
    decreases |s|
  {
    if |s| > 0 {
      DedupDistinct(s[..|s| - 1]);
    }
  }

  /** Looking a digest up gives exactly the readable paths with it, in the
      order they were processed. */
  lemma {:induction false} ProcessFiles(paths: seq<string>, rd: Reader, h: string)
    ensures FilesOf(Process(paths, rd), h) == Matching(paths, rd, h)
    decreases |paths|
  {
    if |paths| > 0 {
      var init := paths[..|paths| - 1];
      var p := paths[|paths| - 1];
      ProcessFiles(init, rd, h);
      assert paths == init + [p];
      FilterConcat(init, [p], HashIs(rd, h));
      match rd.HashOf(p)
      case None =>
        assert Filter([p], HashIs(rd, h)) == [];
      case Some(k) =>
        AddPathFiles(Process(init, rd), k, p, h);
        assert Filter([p], HashIs(rd, h)) == if k == h then [p] else [];
    }
  }

  // ---------------------------------------------------------------------
  // Progress
  // ---------------------------------------------------------------------

  const StartMessage: string := "Starting duplicate detection..."

  /** The progress calls: one before anything is read, then one per path,
      which names the path only when it could be read. */
  function DuplicateProgress(paths: seq<string>, rd: Reader): (trace: seq<Progress>)
    ensures |trace| == |paths| + 1
    ensures forall k :: 0 <= k < |trace| ==> trace[k].current == k && trace[k].total == |paths|
    ensures trace[0].currentPath == Some(StartMessage)
    ensures forall k :: 0 <= k < |paths| ==>
      trace[k + 1].currentPath == (if paths[k] in rd.contents then Some(paths[k]) else None)
  {
    [Progress(0, |paths|, Some(StartMessage))]
    + seq(|paths|, k requires 0 <= k < |paths| =>
        Progress(k + 1, |paths|, if rd.HashOf(paths[k]).Some? then Some(paths[k]) else None))
  }

  // ---------------------------------------------------------------------
  // Groups
  // ---------------------------------------------------------------------

  function WastedKey(g: DuplicateGroup): int {
    g.totalWastedSpace
  }

  function GroupHash(g: DuplicateGroup): string {
    g.hash
  }

  /** The group for an entry whose first file has `size` bytes: every file
      but one is wasted space. */
  function MakeGroup(e: Entry, size: nat, fmt: Formatter): DuplicateGroup
    requires |e.files| > 1
  {
    var wasted := size * (|e.files| - 1);
    DuplicateGroup(e.hash, size, fmt.size(size), e.files, wasted, fmt.size(wasted))
  }

  /** The loop of `generateDuplicateGroups`, in key order: entries of one
      file, and entries whose first file no longer stats, are skipped. */
  function MakeGroups(t: seq<Entry>, stats: StatTable, fmt: Formatter): seq<DuplicateGroup> {
    if |t| == 0 then []
    else
      (if |t[0].files| > 1 && t[0].files[0] in stats then [MakeGroup(t[0], stats[t[0].files[0]].size, fmt)] else [])
      + MakeGroups(t[1..], stats, fmt)
  }

  /** `detectDuplicates`: the groups, most wasted space first. */
  function DetectDuplicates(paths: seq<string>, rd: Reader, stats: StatTable, fmt: Formatter): (groups: seq<DuplicateGroup>)
    ensures forall i, j :: 0 <= i < j < |groups| ==> groups[i].totalWastedSpace >= groups[j].totalWastedSpace
  {
    SortDesc(MakeGroups(Process(paths, rd), stats, fmt), WastedKey)
  }

  /** A group is made exactly for each entry of two or more files whose
      first file stats. */
  lemma {:induction false} MakeGroupsMembers(t: seq<Entry>, stats: StatTable, fmt: Formatter, g: DuplicateGroup)
    ensures g in MakeGroups(t, stats, fmt) <==>
      exists i :: 0 <= i < |t| && |t[i].files| > 1 && t[i].files[0] in stats
        && g == MakeGroup(t[i], stats[t[i].files[0]].size, fmt)
  {
    if |t| > 0 {
      MakeGroupsMembers(t[1..], stats, fmt, g);
      if g in MakeGroups(t[1..], stats, fmt) {
        var i :| 0 <= i < |t[1..]| && |t[1..][i].files| > 1 && t[1..][i].files[0] in stats
          && g == MakeGroup(t[1..][i], stats[t[1..][i].files[0]].size, fmt);
        assert t[i + 1] == t[1..][i];
      }
      if exists i :: 0 <= i < |t| && |t[i].files| > 1 && t[i].files[0] in stats
          && g == MakeGroup(t[i], stats[t[i].files[0]].size, fmt) {
        var i :| 0 <= i < |t| && |t[i].files| > 1 && t[i].files[0] in stats
          && g == MakeGroup(t[i], stats[t[i].files[0]].size, fmt);
        if i > 0 {
          assert t[1..][i - 1] == t[i];
        }
      }
    }
  }

  lemma {:induction false} MakeGroupsDistinct(t: seq<Entry>, stats: StatTable, fmt: Formatter)
    requires DistinctKeys(t, EntryHash)
    ensures DistinctKeys(MakeGroups(t, stats, fmt), GroupHash)
  {
    if |t| > 0 {
      var rest := MakeGroups(t[1..], stats, fmt);
      assert DistinctKeys(t[1..], EntryHash) by {
        forall a, b | 0 <= a < b < |t[1..]| ensures EntryHash(t[1..][a]) != EntryHash(t[1..][b]) {
          assert EntryHash(t[a + 1]) != EntryHash(t[b + 1]);
        }
      }
      MakeGroupsDistinct(t[1..], stats, fmt);
      if |t[0].files| > 1 && t[0].files[0] in stats {
        var g := MakeGroup(t[0], stats[t[0].files[0]].size, fmt);
        forall k | 0 <= k < |rest| ensures GroupHash(rest[k]) != g.hash {
          assert rest[k] in rest;
          MakeGroupsMembers(t[1..], stats, fmt, rest[k]);
          var i :| 0 <= i < |t[1..]| && |t[1..][i].files| > 1 && t[1..][i].files[0] in stats
            && rest[k] == MakeGroup(t[1..][i], stats[t[1..][i].files[0]].size, fmt);
          assert EntryHash(t[0]) != EntryHash(t[i + 1]);
        }
        var all := [g] + rest;
        forall a, b | 0 <= a < b < |all| ensures GroupHash(all[a]) != GroupHash(all[b]) {
          if a == 0 {
            assert all[b] == rest[b - 1];
          } else {
            assert all[a] == rest[a - 1] && all[b] == rest[b - 1];
          }
        }
      } else {
        assert MakeGroups(t, stats, fmt) == rest;
      }
    }
  }

  /** Every group lists exactly the readable files with its digest, in
      processing order, and there are at least two; its size is a fresh stat
      of its first file, and its wasted space that size once per extra copy. */
  lemma GroupsSound(paths: seq<string>, rd: Reader, stats: StatTable, fmt: Formatter, g: DuplicateGroup)
    requires g in DetectDuplicates(paths, rd, stats, fmt)
    ensures |g.files| >= 2
    ensures g.files == Matching(paths, rd, g.hash)
    ensures g.files[0] in stats && g.size == stats[g.files[0]].size
    ensures g.totalWastedSpace == g.size * (|g.files| - 1)
    ensures g.sizeFormatted == fmt.size(g.size) && g.totalWastedSpaceFormatted == fmt.size(g.totalWastedSpace)
  {
    var e := GroupEntry(paths, rd, stats, fmt, g);
  }

  /** The entry of the processing table a reported group was made from. */
  lemma GroupEntry(paths: seq<string>, rd: Reader, stats: StatTable, fmt: Formatter, g: DuplicateGroup)
    returns (e: Entry)
    requires g in DetectDuplicates(paths, rd, stats, fmt)
    ensures |e.files| > 1 && e.files[0] in stats && g == MakeGroup(e, stats[e.files[0]].size, fmt)
    ensures e.files == Matching(paths, rd, e.hash)
  {
    var t := Process(paths, rd);
    var made := MakeGroups(t, stats, fmt);
    assert g in multiset(SortDesc(made, WastedKey));
    MakeGroupsMembers(t, stats, fmt, g);
    var i :| 0 <= i < |t| && |t[i].files| > 1 && t[i].files[0] in stats
      && g == MakeGroup(t[i], stats[t[i].files[0]].size, fmt);
    ProcessDistinct(paths, rd);
    FilesOfEntry(t, i);
    ProcessFiles(paths, rd, t[i].hash);
    e := t[i];
  }

  /** Every digest shared by two or more readable files whose first file
      stats has its group. */
  lemma GroupsComplete(paths: seq<string>, rd: Reader, stats: StatTable, fmt: Formatter, h: string)
    requires |Matching(paths, rd, h)| >= 2
    requires Matching(paths, rd, h)[0] in stats
    ensures exists g :: g in DetectDuplicates(paths, rd, stats, fmt) && g.hash == h
  {
    var t := Process(paths, rd);
    ProcessFiles(paths, rd, h);
    FilesOfKey(t, h);
    var i :| 0 <= i < |t| && t[i].hash == h;
    ProcessDistinct(paths, rd);
    FilesOfEntry(t, i);
    var g := MakeGroup(t[i], stats[t[i].files[0]].size, fmt);
    MakeGroupsMembers(t, stats, fmt, g);
    var made := MakeGroups(t, stats, fmt);
    assert g in multiset(made);
    assert g in multiset(SortDesc(made, WastedKey));
  }

  /** No two groups share a digest, so no file is in two groups. */
  lemma GroupHashesDistinct(paths: seq<string>, rd: Reader, stats: StatTable, fmt: Formatter)
    ensures DistinctKeys(DetectDuplicates(paths, rd, stats, fmt), GroupHash)
  {
    var t := Process(paths, rd);
    ProcessDistinct(paths, rd);
    MakeGroupsDistinct(t, stats, fmt);
    var made := MakeGroups(t, stats, fmt);
    DistinctKeysPermutation(made, SortDesc(made, WastedKey), GroupHash);
  }

  /** A readable file with the same contents as a file of a group is in that
      group. */
  lemma SameContentSameGroup(paths: seq<string>, rd: Reader, stats: StatTable, fmt: Formatter,
                             g: DuplicateGroup, p: string, q: string)
    requires g in DetectDuplicates(paths, rd, stats, fmt)
    requires p in g.files
    requires q in paths && q in rd.contents && p in rd.contents && rd.contents[q] == rd.contents[p]
    ensures q in g.files
  {
    GroupsSound(paths, rd, stats, fmt, g);
    FilterSpec(paths, HashIs(rd, g.hash));
  }

  /** Groups wasting the same space come in the order their digests were
      first seen. */
  lemma GroupsTieOrder(paths: seq<string>, rd: Reader, stats: StatTable, fmt: Formatter, wasted: nat)
    ensures WithKey(DetectDuplicates(paths, rd, stats, fmt), WastedKey, wasted)
         == WithKey(MakeGroups(Process(paths, rd), stats, fmt), WastedKey, wasted)
    ensures Keys(Process(paths, rd)) == Dedup(ReadableHashes(paths, rd))
  {
    var made := MakeGroups(Process(paths, rd), stats, fmt);
    SortDescStable(made, WastedKey, DuplicateGroup("", 0, "", [], wasted, ""));
    ProcessKeys(paths, rd);
  }
}
