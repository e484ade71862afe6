/** The text tree of `TreeViewGenerator` (src/tree-view.ts): the files are
    sorted by path, hung under folder nodes named after the parts of their
    path relative to the root, the children of every folder are ordered
    folders-first then by name, and the tree is drawn with box-drawing
    connectors down to a fixed depth. */
module TreeView {
  import opened Wrappers
  import opened Strings
  import opened Sorting
  import opened Records

  /** `TreeNode`: a directory always carries a (possibly empty) list of
      children, a file always carries its size. */
  datatype TreeNode =
    | Folder(name: string, path: string, children: seq<TreeNode>)
    | Leaf(name: string, path: string, size: nat)

  predicate IsFolder(n: TreeNode) {
    n.Folder?
  }

  function Name(n: TreeNode): string {
    n.name
  }

  // ---------------------------------------------------------------------
  // Paths relative to the root
  // ---------------------------------------------------------------------

  /** The root with exactly one trailing separator. */
  function Prefix(root: string): string {
    if EndsWith(root, "/") then root else root + "/"
  }

  /** A path segment as `path.relative` leaves it: not empty, not `.` and
      not `..`. */
  predicate ValidPart(part: string) {
    |part| > 0 && part != "." && part != ".."
  }

  /** `filePath` is the root itself or a normalised path below it. */
  predicate InsideRoot(root: string, filePath: string) {
    |root| > 0 &&
    (filePath == root ||
     (StartsWith(filePath, Prefix(root)) &&
      forall part :: part in Split(filePath[|Prefix(root)|..], '/') ==> ValidPart(part)))
  }

  /** `path.relative(rootPath, file.path).split(path.sep)`, with the empty
      relative path giving no parts at all. */
  function RelParts(root: string, filePath: string): (parts: seq<string>)
    requires InsideRoot(root, filePath)
    ensures |parts| == 0 <==> filePath == root
    ensures forall i :: 0 <= i < |parts| ==> ValidPart(parts[i])
  {
    if filePath == root then []
    else
      var parts := Split(filePath[|Prefix(root)|..], '/');
      assert forall i :: 0 <= i < |parts| ==> parts[i] in parts;
      parts
  }

  /** `path.basename(rootPath) || rootPath`. */
  function RootName(root: string): string {
    var trimmed := StripTrailingSlashes(root);
    var base := trimmed[LastIndexOf(trimmed, '/') + 1..];
    if |base| == 0 then root else base
  }

  function StripTrailingSlashes(s: string): (r: string)
    ensures |r| <= |s|
  {
    if |s| > 0 && s[|s| - 1] == '/' then StripTrailingSlashes(s[..|s| - 1]) else s
  }

  // ---------------------------------------------------------------------
  // Building the tree
  // ---------------------------------------------------------------------

  /** The index of the first folder child called `name`, which is the node
      the source finds under the key `path.join(currentPath, name)`. */
  function FindFolder(cs: seq<TreeNode>, name: string): (r: Option<nat>)
    ensures r.Some? ==> r.value < |cs| && cs[r.value].Folder? && cs[r.value].name == name
    ensures r.None? <==> forall i :: 0 <= i < |cs| ==> !(cs[i].Folder? && cs[i].name == name)
  {
    if |cs| == 0 then None
    else if cs[0].Folder? && cs[0].name == name then Some(0)
    else match FindFolder(cs[1..], name)
      case None => None
      case Some(i) => Some(i + 1)
  }

  /** Hang `f` under the folders named by `parts` (all but the last), below
      the children `cs` of the folder at `dir`, creating the missing folders
      at the end of their parent's children. */
  function InsertFile(cs: seq<TreeNode>, dir: string, parts: seq<string>, f: FileRecord): (r: seq<TreeNode>)
    requires |parts| > 0
    decreases |parts|
  {
    if |parts| == 1 then cs + [Leaf(parts[0], f.path, f.size)]
    else
      var p := JoinPath(dir, parts[0]);
      match FindFolder(cs, parts[0])
      case None => cs + [Folder(parts[0], p, InsertFile([], p, parts[1..], f))]
      case Some(i) => cs[i := cs[i].(children := InsertFile(cs[i].children, p, parts[1..], f))]
  }

  /** One turn of the loop over the sorted files: the root itself is
      skipped. */
  function AddFile(cs: seq<TreeNode>, root: string, f: FileRecord): seq<TreeNode>
    requires InsideRoot(root, f.path)
  {
    var parts := RelParts(root, f.path);
    if |parts| == 0 then cs else InsertFile(cs, root, parts, f)
  }

  predicate AllInside(root: string, files: seq<FileRecord>) {
    forall i :: 0 <= i < |files| ==> InsideRoot(root, files[i].path)
  }

  function AddFiles(cs: seq<TreeNode>, root: string, files: seq<FileRecord>): seq<TreeNode>
    requires AllInside(root, files)
    decreases files
  {
    if |files| == 0 then cs
    else AddFiles(AddFile(cs, root, files[0]), root, files[1..])
  }

  /** The order `a.path.localeCompare(b.path) <= 0` sorts by, with
      code-point order in place of the locale's collation. */
  predicate PathLe(a: FileRecord, b: FileRecord) {
    StrLe(a.path, b.path)
  }

  lemma PathLePreorder()
    ensures TotalPreorder(PathLe)
  {
    forall a: FileRecord ensures PathLe(a, a) { StrLeReflexive(a.path); }
    forall a: FileRecord, b: FileRecord ensures PathLe(a, b) || PathLe(b, a) { StrLeTotal(a.path, b.path); }
    forall a: FileRecord, b: FileRecord, c: FileRecord | PathLe(a, b) && PathLe(b, c) ensures PathLe(a, c) {
      StrLeTransitive(a.path, b.path, c.path);
    }
  }

  /** `files.sort((a, b) => a.path.localeCompare(b.path))`, sorting by
      code-point order in place of the locale's collation. */
  function SortByPath(files: seq<FileRecord>): (r: seq<FileRecord>)
    ensures multiset(r) == multiset(files)
    ensures Sorted(r, PathLe)
  {
    PathLePreorder();
    Sort(files, PathLe)
  }

  /** The children comparator: folders first, then names in code-point
      order in place of `localeCompare`. */
  predicate NodeLe(a: TreeNode, b: TreeNode) {
    if a.Folder? != b.Folder? then a.Folder? else StrLe(a.name, b.name)
  }

  lemma NodeLePreorder()
    ensures TotalPreorder(NodeLe)
  {
    forall a: TreeNode ensures NodeLe(a, a) { StrLeReflexive(a.name); }
    forall a: TreeNode, b: TreeNode ensures NodeLe(a, b) || NodeLe(b, a) { StrLeTotal(a.name, b.name); }
    forall a: TreeNode, b: TreeNode, c: TreeNode | NodeLe(a, b) && NodeLe(b, c) ensures NodeLe(a, c) {
      if a.Folder? == b.Folder? == c.Folder? {
        StrLeTransitive(a.name, b.name, c.name);
      }
    }
  }

  function SortNodes(cs: seq<TreeNode>): (r: seq<TreeNode>)
    ensures multiset(r) == multiset(cs)
    ensures Sorted(r, NodeLe)
  {
    NodeLePreorder();
    Sort(cs, NodeLe)
  }

  /** `sortTreeNodes`: sort a folder's children, then each child. */
  function SortTree(n: TreeNode): (r: TreeNode)
    ensures r.Folder? == n.Folder? && r.name == n.name && r.path == n.path
    ensures r.Leaf? ==> r == n
    ensures r.Folder? ==> |r.children| == |n.children|
  {
    match n
    case Leaf(_, _, _) => n
    case Folder(name, path, cs) =>
      var sorted := SortNodes(cs);
      Folder(name, path, seq(|sorted|, i requires 0 <= i < |sorted| =>
        assert sorted[i] in multiset(cs);
        SortTree(sorted[i])))
  }

  /** `buildTree`. */
  function BuildTree(files: seq<FileRecord>, root: string): (t: TreeNode)
    requires AllInside(root, files)
    ensures t.Folder? && t.name == RootName(root) && t.path == root
  {
    var sorted := SortByPath(files);
    assert AllInside(root, sorted) by {
      forall i | 0 <= i < |sorted| ensures InsideRoot(root, sorted[i].path) {
        assert sorted[i] in multiset(files);
      }
    }
    SortTree(Folder(RootName(root), root, AddFiles([], root, sorted)))
  }

  // ---------------------------------------------------------------------
  // Every file below the root becomes exactly one leaf
  // ---------------------------------------------------------------------

  /** The files a tree shows, depth first. */
  function Leaves(n: TreeNode): seq<FileRecord>
    decreases n, 1
  {
    match n
    case Leaf(_, path, size) => [FileRecord(path, size)]
    case Folder(_, _, cs) => LeavesOf(cs)
  }

  function LeavesOf(cs: seq<TreeNode>): seq<FileRecord>
    decreases cs, 0
  {
    if |cs| == 0 then [] else Leaves(cs[0]) + LeavesOf(cs[1..])
  }

  lemma {:induction false} LeavesOfConcat(a: seq<TreeNode>, b: seq<TreeNode>)
    ensures LeavesOf(a + b) == LeavesOf(a) + LeavesOf(b)
  {
    if |a| == 0 {
      assert a + b == b;
    } else {
      assert (a + b)[0] == a[0];
      assert (a + b)[1..] == a[1..] + b;
      LeavesOfConcat(a[1..], b);
    }
  }

  lemma LeavesOfUpdate(cs: seq<TreeNode>, i: nat, x: TreeNode)
    requires i < |cs|
    ensures multiset(LeavesOf(cs[i := x])) + multiset(Leaves(cs[i]))
         == multiset(LeavesOf(cs)) + multiset(Leaves(x))
  {
    var pre, post := cs[..i], cs[i + 1..];
    assert cs == pre + [cs[i]] + post;
    assert cs[i := x] == pre + [x] + post;
    LeavesOfConcat(pre + [cs[i]], post);
    LeavesOfConcat(pre, [cs[i]]);
    LeavesOfConcat(pre + [x], post);
    LeavesOfConcat(pre, [x]);
    assert LeavesOf([x]) == Leaves(x) by { assert [x][1..] == []; }
    assert LeavesOf([cs[i]]) == Leaves(cs[i]) by { assert [cs[i]][1..] == []; }
  }

  /** Replacing a child by one showing one more file shows one more file. */
  lemma ReplaceLeaves(cs: seq<TreeNode>, i: nat, x: TreeNode, f: FileRecord)
    requires i < |cs|
    requires multiset(Leaves(x)) == multiset(Leaves(cs[i])) + multiset{f}
    ensures multiset(LeavesOf(cs[i := x])) == multiset(LeavesOf(cs)) + multiset{f}
  {
    LeavesOfUpdate(cs, i, x);
    MultisetCancel(multiset(LeavesOf(cs[i := x])), multiset(LeavesOf(cs)) + multiset{f}, multiset(Leaves(cs[i])));
  }

  lemma {:induction false} InsertFileLeaves(cs: seq<TreeNode>, dir: string, parts: seq<string>, f: FileRecord)
    requires |parts| > 0
    ensures multiset(LeavesOf(InsertFile(cs, dir, parts, f))) == multiset(LeavesOf(cs)) + multiset{f}
    decreases |parts|
  {
    if |parts| == 1 {
      var leaf := Leaf(parts[0], f.path, f.size);
      LeavesOfConcat(cs, [leaf]);
      assert LeavesOf([leaf]) == [f] by { assert [leaf][1..] == []; }
    } else {
      var p := JoinPath(dir, parts[0]);
      match FindFolder(cs, parts[0])
      case None =>
        var sub := Folder(parts[0], p, InsertFile([], p, parts[1..], f));
        InsertFileLeaves([], p, parts[1..], f);
        LeavesOfConcat(cs, [sub]);
        assert LeavesOf([sub]) == Leaves(sub) by { assert [sub][1..] == []; }
      case Some(i) =>
        var sub := cs[i].(children := InsertFile(cs[i].children, p, parts[1..], f));
        assert InsertFile(cs, dir, parts, f) == cs[i := sub];
        InsertFileLeaves(cs[i].children, p, parts[1..], f);
        ReplaceLeaves(cs, i, sub, f);
    }
  }

  /** The files the tree keeps: all but the root itself. */
  function BelowRoot(root: string): FileRecord -> bool {
    (f: FileRecord) => f.path != root
  }

  lemma {:induction false} AddFilesLeaves(cs: seq<TreeNode>, root: string, files: seq<FileRecord>)
    requires AllInside(root, files)
    ensures multiset(LeavesOf(AddFiles(cs, root, files)))
         == multiset(LeavesOf(cs)) + multiset(Filter(files, BelowRoot(root)))
    decreases files
  {
    if |files| > 0 {
      var f := files[0];
      var next := AddFile(cs, root, f);
      if f.path != root {
        InsertFileLeaves(cs, root, RelParts(root, f.path), f);
      }
      AddFilesLeaves(next, root, files[1..]);
    }
  }

  lemma LeavesOfRemove(b: seq<TreeNode>, k: nat)
    requires k < |b|
    ensures multiset(LeavesOf(b)) == multiset(Leaves(b[k])) + multiset(LeavesOf(b[..k] + b[k + 1..]))
  {
    SplitAt(b, k);
    LeavesOfConcat(b[..k] + [b[k]], b[k + 1..]);
    LeavesOfConcat(b[..k], [b[k]]);
    LeavesOfConcat(b[..k], b[k + 1..]);
    assert LeavesOf([b[k]]) == Leaves(b[k]) by { assert [b[k]][1..] == []; }
  }

  lemma {:induction false} LeavesOfPermutation(a: seq<TreeNode>, b: seq<TreeNode>)
    requires multiset(a) == multiset(b)
    ensures multiset(LeavesOf(a)) == multiset(LeavesOf(b))
    decreases |a|
  {
    if |a| == 0 {
      assert |multiset(b)| == 0;
    } else {
      var k := PermutationHead(a, b);
      var rest := b[..k] + b[k + 1..];
      LeavesOfPermutation(a[1..], rest);
      LeavesOfRemove(b, k);
      assert LeavesOf(a) == Leaves(a[0]) + LeavesOf(a[1..]);
    }
  }

  lemma {:induction false} LeavesOfPointwise(a: seq<TreeNode>, b: seq<TreeNode>)
    requires |a| == |b|
    requires forall i :: 0 <= i < |a| ==> multiset(Leaves(a[i])) == multiset(Leaves(b[i]))
    ensures multiset(LeavesOf(a)) == multiset(LeavesOf(b))
    decreases |a|
  {
    if |a| > 0 {
      LeavesOfPointwise(a[1..], b[1..]);
    }
  }

  lemma {:induction false} SortTreeLeaves(n: TreeNode)
    ensures multiset(Leaves(SortTree(n))) == multiset(Leaves(n))
    decreases n
  {
    match n
    case Leaf(_, _, _) =>
    case Folder(name, path, cs) =>
      var sorted := SortNodes(cs);
      var kids := SortTree(n).children;
      forall i | 0 <= i < |sorted| ensures multiset(Leaves(kids[i])) == multiset(Leaves(sorted[i])) {
        assert sorted[i] in multiset(cs);
        SortTreeLeaves(sorted[i]);
      }
      LeavesOfPointwise(kids, sorted);
      LeavesOfPermutation(sorted, cs);
  }

  /** The tree shows every file except the root itself, each once. */
  lemma BuildTreeLeaves(files: seq<FileRecord>, root: string)
    requires AllInside(root, files)
    ensures multiset(Leaves(BuildTree(files, root))) == multiset(Filter(files, BelowRoot(root)))
  {
    var sorted := SortByPath(files);
    assert AllInside(root, sorted) by {
      forall i | 0 <= i < |sorted| ensures InsideRoot(root, sorted[i].path) {
        assert sorted[i] in multiset(files);
      }
    }
    var built := AddFiles([], root, sorted);
    AddFilesLeaves([], root, sorted);
    SortTreeLeaves(Folder(RootName(root), root, built));
    FilterPermutation(sorted, files, BelowRoot(root));
  }

  // ---------------------------------------------------------------------
  // Every leaf sits under the folders its relative path names
  // ---------------------------------------------------------------------

  /** `n` is a child of the folder at `dir`, whose path relative to the
      root is `chain`: a file's relative path is `chain` followed by its
      name, and a folder's path is its parent's path joined with its
      name. */
  predicate Placed(n: TreeNode, dir: string, chain: seq<string>, root: string)
    decreases n
  {
    match n
    case Leaf(name, path, _) => InsideRoot(root, path) && RelParts(root, path) == chain + [name]
    case Folder(name, path, cs) =>
      path == JoinPath(dir, name) &&
      forall i :: 0 <= i < |cs| ==> Placed(cs[i], path, chain + [name], root)
  }

  predicate PlacedAll(cs: seq<TreeNode>, dir: string, chain: seq<string>, root: string) {
    forall i :: 0 <= i < |cs| ==> Placed(cs[i], dir, chain, root)
  }

  lemma PlacedAppend(cs: seq<TreeNode>, x: TreeNode, dir: string, chain: seq<string>, root: string)
    requires PlacedAll(cs, dir, chain, root) && Placed(x, dir, chain, root)
    ensures PlacedAll(cs + [x], dir, chain, root)
  {
  }

  lemma PlacedUpdate(cs: seq<TreeNode>, i: nat, x: TreeNode, dir: string, chain: seq<string>, root: string)
    requires i < |cs| && PlacedAll(cs, dir, chain, root) && Placed(x, dir, chain, root)
    ensures PlacedAll(cs[i := x], dir, chain, root)
  {
  }

  lemma {:induction false} InsertFilePlaced(cs: seq<TreeNode>, dir: string, chain: seq<string>, root: string,
                                            parts: seq<string>, f: FileRecord)
    requires |parts| > 0 && InsideRoot(root, f.path) && RelParts(root, f.path) == chain + parts
    requires PlacedAll(cs, dir, chain, root)
    ensures PlacedAll(InsertFile(cs, dir, parts, f), dir, chain, root)
    decreases |parts|
  {
    if |parts| == 1 {
      PlacedAppend(cs, Leaf(parts[0], f.path, f.size), dir, chain, root);
    } else {
      var p := JoinPath(dir, parts[0]);
      var chain' := chain + [parts[0]];
      assert RelParts(root, f.path) == chain' + parts[1..] by {
        assert parts == [parts[0]] + parts[1..];
      }
      match FindFolder(cs, parts[0])
      case None =>
        InsertFilePlaced([], p, chain', root, parts[1..], f);
        var sub := Folder(parts[0], p, InsertFile([], p, parts[1..], f));
        assert Placed(sub, dir, chain, root);
        assert InsertFile(cs, dir, parts, f) == cs + [sub];
        PlacedAppend(cs, sub, dir, chain, root);
      case Some(i) =>
        assert Placed(cs[i], dir, chain, root);
        InsertFilePlaced(cs[i].children, p, chain', root, parts[1..], f);
        var sub := cs[i].(children := InsertFile(cs[i].children, p, parts[1..], f));
        assert Placed(sub, dir, chain, root);
        assert InsertFile(cs, dir, parts, f) == cs[i := sub];
        PlacedUpdate(cs, i, sub, dir, chain, root);
    }
  }

  lemma {:induction false} AddFilesPlaced(cs: seq<TreeNode>, root: string, files: seq<FileRecord>)
    requires AllInside(root, files)
    requires PlacedAll(cs, root, [], root)
    ensures PlacedAll(AddFiles(cs, root, files), root, [], root)
    decreases files
  {
    if |files| > 0 {
      var f := files[0];
      if f.path != root {
        var parts := RelParts(root, f.path);
        assert RelParts(root, f.path) == [] + parts;
        InsertFilePlaced(cs, root, [], root, parts, f);
      }
      AddFilesPlaced(AddFile(cs, root, f), root, files[1..]);
    }
  }

  lemma {:induction false} SortTreePlaced(n: TreeNode, dir: string, chain: seq<string>, root: string)
    requires Placed(n, dir, chain, root)
    ensures Placed(SortTree(n), dir, chain, root)
    decreases n
  {
    match n
    case Leaf(_, _, _) =>
    case Folder(name, path, cs) =>
      var sorted := SortNodes(cs);
      var kids := SortTree(n).children;
      forall i | 0 <= i < |kids| ensures Placed(kids[i], path, chain + [name], root) {
        assert sorted[i] in multiset(cs);
        var j :| 0 <= j < |cs| && cs[j] == sorted[i];
        SortTreePlaced(sorted[i], path, chain + [name], root);
      }
  }

  /** The whole tree: the root folder at `root`, and below it every file
      under the folders its path relative to `root` names. */
  predicate TreePlaced(t: TreeNode, root: string) {
    t.Folder? && t.path == root && PlacedAll(t.children, root, [], root)
  }

  lemma BuildTreePlaced(files: seq<FileRecord>, root: string)
    requires AllInside(root, files)
    ensures TreePlaced(BuildTree(files, root), root)
  {
    var sorted := SortByPath(files);
    assert AllInside(root, sorted) by {
      forall i | 0 <= i < |sorted| ensures InsideRoot(root, sorted[i].path) {
        assert sorted[i] in multiset(files);
      }
    }
    var built := AddFiles([], root, sorted);
    AddFilesPlaced([], root, sorted);
    var t := BuildTree(files, root);
    forall i | 0 <= i < |t.children| ensures Placed(t.children[i], root, [], root) {
      assert t.children[i] == SortTree(SortNodes(built)[i]);
      assert SortNodes(built)[i] in multiset(built);
      SortTreePlaced(SortNodes(built)[i], root, [], root);
    }
  }

  // ---------------------------------------------------------------------
  // One folder node per directory, children in display order
  // ---------------------------------------------------------------------

  /** No folder has two folder children of the same name: every directory
      became a single node however many files it holds. */
  predicate Merged(n: TreeNode)
    decreases n
  {
    match n
    case Leaf(_, _, _) => true
    case Folder(_, _, cs) =>
      DistinctKeysAmong(cs, IsFolder, Name) && forall i :: 0 <= i < |cs| ==> Merged(cs[i])
  }

  predicate MergedAll(cs: seq<TreeNode>) {
    DistinctKeysAmong(cs, IsFolder, Name) && forall i :: 0 <= i < |cs| ==> Merged(cs[i])
  }

  lemma {:induction false} InsertFileMerged(cs: seq<TreeNode>, dir: string, parts: seq<string>, f: FileRecord)
    requires |parts| > 0 && MergedAll(cs)
    ensures MergedAll(InsertFile(cs, dir, parts, f))
    decreases |parts|
  {
    if |parts| == 1 {
      var r := cs + [Leaf(parts[0], f.path, f.size)];
      assert DistinctKeysAmong(r, IsFolder, Name) by {
        forall i, j | 0 <= i < j < |r| && IsFolder(r[i]) && IsFolder(r[j]) ensures Name(r[i]) != Name(r[j]) {
          assert j < |cs|;
        }
      }
    } else {
      var p := JoinPath(dir, parts[0]);
      match FindFolder(cs, parts[0])
      case None =>
        InsertFileMerged([], p, parts[1..], f);
        var sub := Folder(parts[0], p, InsertFile([], p, parts[1..], f));
        var r := cs + [sub];
        assert InsertFile(cs, dir, parts, f) == r;
        assert DistinctKeysAmong(r, IsFolder, Name) by {
          forall i, j | 0 <= i < j < |r| && IsFolder(r[i]) && IsFolder(r[j]) ensures Name(r[i]) != Name(r[j]) {
            if j == |cs| {
              assert !(cs[i].Folder? && cs[i].name == parts[0]);
            }
          }
        }
      case Some(k) =>
        InsertFileMerged(cs[k].children, p, parts[1..], f);
        var sub := cs[k].(children := InsertFile(cs[k].children, p, parts[1..], f));
        var r := cs[k := sub];
        assert InsertFile(cs, dir, parts, f) == r;
        assert DistinctKeysAmong(r, IsFolder, Name) by {
          forall i, j | 0 <= i < j < |r| && IsFolder(r[i]) && IsFolder(r[j]) ensures Name(r[i]) != Name(r[j]) {
            assert IsFolder(cs[i]) && IsFolder(cs[j]) && Name(cs[i]) == Name(r[i]) && Name(cs[j]) == Name(r[j]);
          }
        }
    }
  }

  lemma {:induction false} AddFilesMerged(cs: seq<TreeNode>, root: string, files: seq<FileRecord>)
    requires AllInside(root, files) && MergedAll(cs)
    ensures MergedAll(AddFiles(cs, root, files))
    decreases files
  {
    if |files| > 0 {
      if files[0].path != root {
        InsertFileMerged(cs, root, RelParts(root, files[0].path), files[0]);
      }
      AddFilesMerged(AddFile(cs, root, files[0]), root, files[1..]);
    }
  }

  /** Children sorted folders-first then by name, at every level. */
  predicate SortedTree(n: TreeNode)
    decreases n
  {
    match n
    case Leaf(_, _, _) => true
    case Folder(_, _, cs) => Sorted(cs, NodeLe) && forall i :: 0 <= i < |cs| ==> SortedTree(cs[i])
  }

  /** Sorting orders every level, keeps every directory a single node, and
      does not move any node to another folder. */
  lemma {:induction false} SortTreeSpec(n: TreeNode)
    ensures SortedTree(SortTree(n))
    ensures Merged(n) ==> Merged(SortTree(n))
    decreases n
  {
    match n
    case Leaf(_, _, _) =>
    case Folder(name, path, cs) =>
      var sorted := SortNodes(cs);
      var kids := SortTree(n).children;
      forall i | 0 <= i < |kids| ensures SortedTree(kids[i]) && (Merged(n) ==> Merged(kids[i])) {
        assert sorted[i] in multiset(cs);
        var j :| 0 <= j < |cs| && cs[j] == sorted[i];
        SortTreeSpec(sorted[i]);
      }
      assert Sorted(kids, NodeLe) by {
        forall i, j | 0 <= i < j < |kids| ensures NodeLe(kids[i], kids[j]) {
          assert NodeLe(sorted[i], sorted[j]);
        }
      }
      if Merged(n) {
        DistinctKeysAmongPermutation(cs, sorted, IsFolder, Name);
        assert DistinctKeysAmong(kids, IsFolder, Name) by {
          forall i, j | 0 <= i < j < |kids| && IsFolder(kids[i]) && IsFolder(kids[j]) ensures Name(kids[i]) != Name(kids[j]) {
            assert IsFolder(sorted[i]) && IsFolder(sorted[j]);
          }
        }
      }
  }

  /** The tree has its children in display order at every level and a
      single node per directory. */
  lemma BuildTreeShape(files: seq<FileRecord>, root: string)
    requires AllInside(root, files)
    ensures SortedTree(BuildTree(files, root))
    ensures Merged(BuildTree(files, root))
  {
    var sorted := SortByPath(files);
    assert AllInside(root, sorted) by {
      forall i | 0 <= i < |sorted| ensures InsideRoot(root, sorted[i].path) {
        assert sorted[i] in multiset(files);
      }
    }
    AddFilesMerged([], root, sorted);
    SortTreeSpec(Folder(RootName(root), root, AddFiles([], root, sorted)));
  }

  /** Paths name files uniquely: two records with one path are one record. */
  predicate UniquePaths(files: seq<FileRecord>) {
    forall i, j :: 0 <= i < |files| && 0 <= j < |files| && files[i].path == files[j].path ==> files[i] == files[j]
  }

  /** Because the files are sorted by path first, the tree does not depend
      on the order the walk found them in. */
  lemma BuildTreeOrderIndependent(a: seq<FileRecord>, b: seq<FileRecord>, root: string)
    requires AllInside(root, a) && AllInside(root, b)
    requires multiset(a) == multiset(b)
    requires UniquePaths(a)
    ensures BuildTree(a, root) == BuildTree(b, root)
  {
    var sa, sb := SortByPath(a), SortByPath(b);
    forall x, y | x in sa && y in sa && PathLe(x, y) && PathLe(y, x) ensures x == y {
      StrLeAntisymmetric(x.path, y.path);
      assert x in multiset(a) && y in multiset(a);
      var i :| 0 <= i < |a| && a[i] == x;
      var j :| 0 <= j < |a| && a[j] == y;
    }
    SortedUnique(sa, sb, PathLe);
  }

  // ---------------------------------------------------------------------
  // Drawing the tree
  // ---------------------------------------------------------------------

  /** Nodes deeper than this level are not drawn. */
  const MaxDepth := 10

  const LastConnector := "\U{2514}\U{2500}\U{2500} "
  const MiddleConnector := "\U{251C}\U{2500}\U{2500} "
  const FolderIcon := "\U{1F4C1}"
  const FileIcon := "\U{1F4C4}"
  const LastIndent := "    "
  const MiddleIndent := "\U{2502}   "

  /** The one line drawn for a node. */
  function NodeLine(n: TreeNode, fmt: Formatter, prefix: string, isLast: bool): string {
    var connector := if isLast then LastConnector else MiddleConnector;
    var icon := if n.Folder? then FolderIcon else FileIcon;
    var sizeInfo := if n.Folder? then "" else " (" + fmt.size(n.size) + ")";
    prefix + connector + icon + " " + n.name + sizeInfo + "\n"
  }

  /** `renderTree(node, prefix, isLast, level)`. */
  function RenderNode(n: TreeNode, fmt: Formatter, prefix: string, isLast: bool, level: nat): string
    decreases n, 1
  {
    if level > MaxDepth then ""
    else
      NodeLine(n, fmt, prefix, isLast) +
      (if n.Folder? && |n.children| > 0
       then RenderChildren(n.children, fmt, prefix + (if isLast then LastIndent else MiddleIndent), level + 1)
       else "")
  }

  /** The loop over a folder's children: only the final child is drawn as
      the last one. */
  function RenderChildren(cs: seq<TreeNode>, fmt: Formatter, prefix: string, level: nat): string
    decreases cs, 0
  {
    if |cs| == 0 then ""
    else RenderNode(cs[0], fmt, prefix, |cs| == 1, level) + RenderChildren(cs[1..], fmt, prefix, level)
  }

  /** `renderTree(tree)` with its default arguments. */
  function RenderTree(t: TreeNode, fmt: Formatter): string {
    RenderNode(t, fmt, "", true, 0)
  }

  /** `generateTreeView`: the drawing, and the caller's array as the
      in-place sort by path leaves it. */
  function GenerateTreeView(files: seq<FileRecord>, root: string, fmt: Formatter): (r: (string, seq<FileRecord>))
    requires AllInside(root, files)
    ensures multiset(r.1) == multiset(files) && Sorted(r.1, PathLe)
  {
    (RenderTree(BuildTree(files, root), fmt), SortByPath(files))
  }

  /** The note after a truncated compact view. */
  function MoreFilesNote(hidden: nat): string {
    "\n... and " + NatToString(hidden) + " more files\n"
  }

  lemma SliceInside(files: seq<FileRecord>, root: string, count: int)
    requires AllInside(root, files)
    ensures AllInside(root, SliceTo(files, count))
  {
    var r := SliceTo(files, count);
    forall i | 0 <= i < |r| ensures InsideRoot(root, r[i].path) {
      assert r[i] == files[i];
    }
  }

  /** `generateCompactTreeView`: the tree of the first `maxFiles` files,
      and a note when some were left out. */
  function GenerateCompactTreeView(files: seq<FileRecord>, root: string, maxFiles: int, fmt: Formatter): string
    requires AllInside(root, files)
  {
    var limited := SliceTo(files, maxFiles);
    SliceInside(files, root, maxFiles);
    RenderTree(BuildTree(limited, root), fmt) +
    (if |files| > maxFiles then MoreFilesNote(|files| - maxFiles) else "")
  }

  /** Within its limit the compact view is the full view; past it, the
      full view of the first `maxFiles` files followed by the number left
      out. */
  lemma CompactTreeView(files: seq<FileRecord>, root: string, maxFiles: int, fmt: Formatter)
    requires AllInside(root, files)
    ensures |files| <= maxFiles ==>
      GenerateCompactTreeView(files, root, maxFiles, fmt) == GenerateTreeView(files, root, fmt).0
    ensures 0 <= maxFiles < |files| ==>
      AllInside(root, files[..maxFiles]) &&
      GenerateCompactTreeView(files, root, maxFiles, fmt)
        == GenerateTreeView(files[..maxFiles], root, fmt).0 + MoreFilesNote(|files| - maxFiles)
  {
    SliceInside(files, root, maxFiles);
    if |files| <= maxFiles {
      assert SliceTo(files, maxFiles) == files;
    }
  }

  // ---------------------------------------------------------------------
  // One line per node down to the depth limit
  // ---------------------------------------------------------------------

  function CountChar(s: string, c: char): nat {
    if |s| == 0 then 0 else (if s[0] == c then 1 else 0) + CountChar(s[1..], c)
  }

  lemma {:induction false} CountCharConcat(a: string, b: string, c: char)
    ensures CountChar(a + b, c) == CountChar(a, c) + CountChar(b, c)
  {
    if |a| == 0 {
      assert a + b == b;
    } else {
      assert (a + b)[1..] == a[1..] + b;
      CountCharConcat(a[1..], b, c);
    }
  }

  lemma {:induction false} CountCharAbsent(s: string, c: char)
    requires c !in s
    ensures CountChar(s, c) == 0
  {
    if |s| > 0 {
      assert c !in s[1..] by {
        forall i | 0 <= i < |s| - 1 ensures s[1..][i] != c { assert s[1..][i] == s[i + 1]; }
      }
      CountCharAbsent(s[1..], c);
    }
  }

  /** No name in the tree holds a line break. */
  predicate SingleLineNames(n: TreeNode)
    decreases n
  {
    '\n' !in n.name &&
    (n.Folder? ==> forall i :: 0 <= i < |n.children| ==> SingleLineNames(n.children[i]))
  }

  /** The formatter's sizes hold no line break. */
  ghost predicate SingleLineSizes(fmt: Formatter) {
    forall x :: '\n' !in fmt.size(x)
  }

  /** The nodes of a tree at `level` that are at most `MaxDepth` deep. */
  function Visible(n: TreeNode, level: nat): nat
    decreases n, 1
  {
    if level > MaxDepth then 0
    else 1 + (if n.Folder? then VisibleAll(n.children, level + 1) else 0)
  }

  function VisibleAll(cs: seq<TreeNode>, level: nat): nat
    decreases cs, 0
  {
    if |cs| == 0 then 0 else Visible(cs[0], level) + VisibleAll(cs[1..], level)
  }

  lemma NodeLineIsOneLine(n: TreeNode, fmt: Formatter, prefix: string, isLast: bool)
    requires '\n' !in prefix && '\n' !in n.name && SingleLineSizes(fmt)
    ensures CountChar(NodeLine(n, fmt, prefix, isLast), '\n') == 1
  {
    var connector := if isLast then LastConnector else MiddleConnector;
    var icon := if n.Folder? then FolderIcon else FileIcon;
    var sizeInfo := if n.Folder? then "" else " (" + fmt.size(n.size) + ")";
    var body := prefix + connector + icon + " " + n.name + sizeInfo;
    assert '\n' !in connector && '\n' !in icon;
    assert '\n' !in sizeInfo by {
      if n.Leaf? { assert '\n' !in fmt.size(n.size); }
    }
    assert '\n' !in body;
    assert NodeLine(n, fmt, prefix, isLast) == body + "\n";
    CountCharAbsent(body, '\n');
    CountCharConcat(body, "\n", '\n');
  }

  /** The drawing has one line for each node down to the depth limit. */
  lemma {:induction false} RenderNodeLines(n: TreeNode, fmt: Formatter, prefix: string, isLast: bool, level: nat)
    requires '\n' !in prefix && SingleLineNames(n) && SingleLineSizes(fmt)
    ensures CountChar(RenderNode(n, fmt, prefix, isLast, level), '\n') == Visible(n, level)
    decreases n, 1
  {
    if level <= MaxDepth {
      NodeLineIsOneLine(n, fmt, prefix, isLast);
      var line := NodeLine(n, fmt, prefix, isLast);
      if n.Folder? && |n.children| > 0 {
        var indent := if isLast then LastIndent else MiddleIndent;
        assert '\n' !in indent;
        RenderChildrenLines(n.children, fmt, prefix + indent, level + 1);
        CountCharConcat(line, RenderChildren(n.children, fmt, prefix + indent, level + 1), '\n');
      } else {
        assert RenderNode(n, fmt, prefix, isLast, level) == line + "";
        assert line + "" == line;
        if n.Folder? {
          assert VisibleAll(n.children, level + 1) == 0;
        }
      }
    }
  }

  lemma {:induction false} RenderChildrenLines(cs: seq<TreeNode>, fmt: Formatter, prefix: string, level: nat)
    requires '\n' !in prefix && SingleLineSizes(fmt)
    requires forall i :: 0 <= i < |cs| ==> SingleLineNames(cs[i])
    ensures CountChar(RenderChildren(cs, fmt, prefix, level), '\n') == VisibleAll(cs, level)
    decreases cs, 0
  {
    if |cs| > 0 {
      RenderNodeLines(cs[0], fmt, prefix, |cs| == 1, level);
      RenderChildrenLines(cs[1..], fmt, prefix, level);
      CountCharConcat(RenderNode(cs[0], fmt, prefix, |cs| == 1, level), RenderChildren(cs[1..], fmt, prefix, level), '\n');
    }
  }

  // ---------------------------------------------------------------------
  // What each line of the drawing shows
  // ---------------------------------------------------------------------

  /** Every line of `s` begins with `prefix`. */
  predicate LinesStartWith(s: string, prefix: string) {
    forall i :: 0 <= i < |s| && (i == 0 || s[i - 1] == '\n') ==> StartsWith(s[i..], prefix)
  }

  /** `s` is empty or its last line is complete. */
  predicate EndsLine(s: string) {
    |s| == 0 || s[|s| - 1] == '\n'
  }

  lemma LinesConcat(a: string, b: string, prefix: string)
    requires LinesStartWith(a, prefix) && LinesStartWith(b, prefix) && EndsLine(a)
    ensures LinesStartWith(a + b, prefix)
  {
    var s := a + b;
    forall i | 0 <= i < |s| && (i == 0 || s[i - 1] == '\n') ensures StartsWith(s[i..], prefix) {
      if i < |a| {
        if i > 0 { assert a[i - 1] == s[i - 1]; }
        assert StartsWith(a[i..], prefix);
        assert s[i..][..|prefix|] == a[i..][..|prefix|];
      } else if i == |a| {
        assert s[i..] == b[0..];
      } else {
        assert s[i - 1] == b[i - |a| - 1];
        assert s[i..] == b[i - |a|..];
      }
    }
  }

  lemma LinesWiden(s: string, prefix: string, more: string)
    requires LinesStartWith(s, prefix + more)
    ensures LinesStartWith(s, prefix)
  {
    forall i | 0 <= i < |s| && (i == 0 || s[i - 1] == '\n') ensures StartsWith(s[i..], prefix) {
      assert s[i..][..|prefix|] == (prefix + more)[..|prefix|];
    }
  }

  /** A text without line breaks, ended by one, is a single line. */
  lemma OneLine(body: string, prefix: string)
    requires StartsWith(body, prefix) && '\n' !in body
    ensures LinesStartWith(body + "\n", prefix) && EndsLine(body + "\n")
  {
    var s := body + "\n";
    forall i | 0 <= i < |s| && (i == 0 || s[i - 1] == '\n') ensures StartsWith(s[i..], prefix) {
      if i > 0 {
        assert false;
      }
      assert s[..|prefix|] == body[..|prefix|];
    }
  }

  /** The line drawn for a node itself: the prefix handed down, the
      connector (the last child's corner, or a tee), the folder or file
      icon, the name and, for a file, its formatted size in brackets. */
  function NodeText(n: TreeNode, fmt: Formatter, prefix: string, isLast: bool): string {
    prefix + (if isLast then LastConnector else MiddleConnector) + (if n.Folder? then FolderIcon else FileIcon)
    + " " + n.name + (if n.Folder? then "" else " (" + fmt.size(n.size) + ")")
  }

  /** A drawing of a node below the depth limit begins with the node's own
      line; every line of it begins with the prefix handed down, and the last
      line is complete. Past the depth limit nothing is drawn. */
  lemma {:induction false} RenderNodeShape(n: TreeNode, fmt: Formatter, prefix: string, isLast: bool, level: nat)
    requires '\n' !in prefix && SingleLineNames(n) && SingleLineSizes(fmt)
    ensures var r := RenderNode(n, fmt, prefix, isLast, level);
      && (level > MaxDepth ==> r == "")
      && (level <= MaxDepth ==> StartsWith(r, NodeText(n, fmt, prefix, isLast) + "\n"))
      && LinesStartWith(r, prefix)
      && EndsLine(r)
    decreases n, 1
  {
    if level <= MaxDepth {
      var body := NodeText(n, fmt, prefix, isLast);
      assert '\n' !in body by {
        assert '\n' !in LastConnector && '\n' !in MiddleConnector && '\n' !in FolderIcon && '\n' !in FileIcon;
        if n.Leaf? { assert '\n' !in fmt.size(n.size); }
      }
      assert body[..|prefix|] == prefix;
      OneLine(body, prefix);
      var line := body + "\n";
      assert line == NodeLine(n, fmt, prefix, isLast);
      if n.Folder? && |n.children| > 0 {
        var indent := if isLast then LastIndent else MiddleIndent;
        assert '\n' !in prefix + indent;
        var rest := RenderChildren(n.children, fmt, prefix + indent, level + 1);
        RenderChildrenShape(n.children, fmt, prefix + indent, level + 1);
        LinesWiden(rest, prefix, indent);
        LinesConcat(line, rest, prefix);
        assert (line + rest)[..|line|] == line;
      } else {
        assert RenderNode(n, fmt, prefix, isLast, level) == line + "";
        assert line + "" == line;
        assert line[..|line|] == line;
      }
    }
  }

  lemma {:induction false} RenderChildrenShape(cs: seq<TreeNode>, fmt: Formatter, prefix: string, level: nat)
    requires '\n' !in prefix && SingleLineSizes(fmt)
    requires forall i :: 0 <= i < |cs| ==> SingleLineNames(cs[i])
    ensures LinesStartWith(RenderChildren(cs, fmt, prefix, level), prefix)
    ensures EndsLine(RenderChildren(cs, fmt, prefix, level))
    decreases cs, 0
  {
    if |cs| > 0 {
      var head := RenderNode(cs[0], fmt, prefix, |cs| == 1, level);
      var tail := RenderChildren(cs[1..], fmt, prefix, level);
      RenderNodeShape(cs[0], fmt, prefix, |cs| == 1, level);
      RenderChildrenShape(cs[1..], fmt, prefix, level);
      LinesConcat(head, tail, prefix);
      assert EndsLine(head + tail) by {
        if |tail| == 0 { assert head + tail == head; } else { assert (head + tail)[|head + tail| - 1] == tail[|tail| - 1]; }
      }
    }
  }

  function Size(n: TreeNode): nat
    decreases n, 1
  {
    1 + (if n.Folder? then SizeAll(n.children) else 0)
  }

  function SizeAll(cs: seq<TreeNode>): nat
    decreases cs, 0
  {
    if |cs| == 0 then 0 else Size(cs[0]) + SizeAll(cs[1..])
  }

  /** The number of levels of a tree, a lone node having one. */
  function Height(n: TreeNode): nat
    decreases n, 1
  {
    1 + (if n.Folder? then HeightAll(n.children) else 0)
  }

  function HeightAll(cs: seq<TreeNode>): nat
    decreases cs, 0
  {
    if |cs| == 0 then 0
    else var h, t := Height(cs[0]), HeightAll(cs[1..]); if h > t then h else t
  }

  /** A tree no deeper than the limit is drawn whole. */
  lemma {:induction false} ShallowVisible(n: TreeNode, level: nat)
    requires level + Height(n) <= MaxDepth + 1
    ensures Visible(n, level) == Size(n)
    decreases n, 1
  {
    if n.Folder? {
      ShallowVisibleAll(n.children, level + 1);
    }
  }

  lemma {:induction false} ShallowVisibleAll(cs: seq<TreeNode>, level: nat)
    requires level + HeightAll(cs) <= MaxDepth + 1
    ensures VisibleAll(cs, level) == SizeAll(cs)
    decreases cs, 0
  {
    if |cs| > 0 {
      ShallowVisible(cs[0], level);
      ShallowVisibleAll(cs[1..], level);
    }
  }
}
