/** The record shapes the analyser passes between its parts (src/types.ts and
    the file entries of src/analyzer.ts), the parameters that stand for what
    the model does not compute itself (late `fs.stat` results, size
    formatting, progress reporting), and JavaScript's `Array.prototype.slice`
    from the start. */
module Records {
  import opened Wrappers

  /** `{ path, size }`: one file the walk could stat. */
  datatype FileRecord = FileRecord(path: string, size: nat)

  /** What a later `fs.stat` of a path reports: its size and its
      modification time in milliseconds. */
  datatype Stat = Stat(size: nat, mtime: int)

  /** The results of `fs.stat` after the walk: a path that is missing has
      become unreadable or has disappeared. */
  type StatTable = map<string, Stat>

  /** `formatSize` (`pretty-bytes`) and the decimal text of
      `formatSizeInMB`, both taken as given. */
  datatype Formatter = Formatter(size: nat -> string, megabytes: nat -> string)

  /** One `progressCallback(current, total, currentPath?)` call. */
  datatype Progress = Progress(current: nat, total: nat, currentPath: Option<string>)

  /** `LargeFile`. */
  datatype LargeFile = LargeFile(path: string, size: nat, sizeFormatted: string)

  /** `EmptyFile`; the date is its time value in milliseconds. */
  datatype EmptyFile = EmptyFile(path: string, modified: int)

  /** `DuplicateFileGroup`. */
  datatype DuplicateGroup = DuplicateGroup(
    hash: string,
    size: nat,
    sizeFormatted: string,
    files: seq<string>,
    totalWastedSpace: nat,
    totalWastedSpaceFormatted: string)

  /** `path.join(dir, name)` for a plain name, with the directory kept as
      given: Node's normalisation (a leading `.` segment dropped, `..` and
      doubled separators resolved) is not applied. */
  function JoinPath(dir: string, name: string): string {
    if |dir| == 0 then name
    else if dir[|dir| - 1] == '/' then dir + name
    else dir + "/" + name
  }

  function Paths(files: seq<FileRecord>): (ps: seq<string>)
    ensures |ps| == |files|
    ensures forall i :: 0 <= i < |files| ==> ps[i] == files[i].path
  {
    seq(|files|, i requires 0 <= i < |files| => files[i].path)
  }

  function Sizes(files: seq<FileRecord>): nat {
    if |files| == 0 then 0 else files[0].size + Sizes(files[1..])
  }

  lemma {:induction false} SizesConcat(a: seq<FileRecord>, b: seq<FileRecord>)
    ensures Sizes(a + b) == Sizes(a) + Sizes(b)
  {
    if |a| > 0 {
      assert (a + b)[1..] == a[1..] + b;
      SizesConcat(a[1..], b);
    } else {
      assert a + b == b;
    }
  }

  /** The number of elements `s.slice(0, count)` keeps: a negative count
      counts back from the end, and both ends are clamped. */
  function SliceLength(len: nat, count: int): (n: nat)
    ensures n <= len
    ensures count >= 0 ==> n == if count < len then count else len
    ensures count < 0 ==> n == if len + count > 0 then len + count else 0
  {
    if count >= 0 then (if count < len then count else len)
    else if len + count > 0 then len + count else 0
  }

  /** `s.slice(0, count)`. */
  function SliceTo<T>(s: seq<T>, count: int): (r: seq<T>)
    ensures |r| == SliceLength(|s|, count)
    ensures r == s[..|r|]
  {
    s[..SliceLength(|s|, count)]
  }
}
