/** The file classifier (src/classifier.ts): a file name's extension, taken
    from its last dot and lower-cased, is looked up in a fixed table of six
    categories; anything else is `other`. A classifier keeps one counter per
    category. */
module Classifier {
  import opened Strings
  import Sorting

  datatype Category = Images | Videos | Documents | Audio | Code | Archives | Other

  /** The seven categories in the key order of the counters object. */
  const AllCategories: seq<Category> := [Images, Videos, Documents, Audio, Code, Archives, Other]

  lemma AllCategoriesComplete(c: Category)
    ensures c in AllCategories
  {
  }

  /** The name a category has as a key of the counters object. */
  function CategoryKey(c: Category): string {
    match c
    case Images => "images"
    case Videos => "videos"
    case Documents => "documents"
    case Audio => "audio"
    case Code => "code"
    case Archives => "archives"
    case Other => "other"
  }

  // ---------------------------------------------------------------------
  // The extension table, in declaration order
  // ---------------------------------------------------------------------

  const ImageExtensions: seq<string> :=
    [".png", ".jpg", ".jpeg", ".gif", ".svg", ".webp", ".bmp", ".tiff", ".ico"]
  const VideoExtensions: seq<string> :=
    [".mp4", ".mkv", ".avi", ".mov", ".webm", ".flv", ".wmv", ".m4v"]
  const DocumentExtensions: seq<string> :=
    [".pdf", ".docx", ".xlsx", ".pptx", ".txt", ".doc", ".xls", ".ppt", ".rtf", ".odt", ".ods", ".odp"]
  const AudioExtensions: seq<string> :=
    [".mp3", ".wav", ".flac", ".aac", ".ogg", ".wma", ".m4a"]
  /** The code list is kept in four quarters only so that the proofs below
      can take it in smaller steps; together they are the source's list. */
  const CodeExtensions: seq<string> :=
    CodeExtensionsA + CodeExtensionsB + CodeExtensionsC + CodeExtensionsD
  const CodeExtensionsA: seq<string> :=
    [".js", ".ts", ".jsx", ".tsx", ".py", ".java", ".cpp", ".c", ".h"]
  const CodeExtensionsB: seq<string> :=
    [".hpp", ".cs", ".php", ".rb", ".go", ".rs", ".swift", ".kt", ".scala"]
  const CodeExtensionsC: seq<string> :=
    [".clj", ".sh", ".bat", ".ps1", ".sql", ".html", ".css", ".scss", ".sass"]
  const CodeExtensionsD: seq<string> :=
    [".less", ".json", ".xml", ".yaml", ".yml", ".toml", ".ini", ".cfg", ".conf"]
  const ArchiveExtensions: seq<string> :=
    [".zip", ".rar", ".7z", ".tar", ".gz", ".bz2", ".xz", ".tar.gz", ".tar.bz2"]

  /** `Object.entries(FILE_TYPE_EXTENSIONS)`: the six categories with a table,
      in the order they are tried. */
  const Table: seq<(Category, seq<string>)> := [
    (Images, ImageExtensions),
    (Videos, VideoExtensions),
    (Documents, DocumentExtensions),
    (Audio, AudioExtensions),
    (Code, CodeExtensions),
    (Archives, ArchiveExtensions)
  ]

  /** The extensions listed for a category; `other` has none. */
  function ExtensionsOf(c: Category): seq<string> {
    match c
    case Images => ImageExtensions
    case Videos => VideoExtensions
    case Documents => DocumentExtensions
    case Audio => AudioExtensions
    case Code => CodeExtensions
    case Archives => ArchiveExtensions
    case Other => []
  }

  // Every listed extension leads the lookup to its own category. Since the
  // lookup is a function, no extension can be listed under two categories.
  lemma ImagesListed(e: string)
    requires e in ImageExtensions
    ensures GetFileType(e) == Images
  {
  }

  lemma VideosListed(e: string)
    requires e in VideoExtensions
    ensures GetFileType(e) == Videos
  {
  }

  lemma DocumentsListed(e: string)
    requires e in DocumentExtensions
    ensures GetFileType(e) == Documents
  {
  }

  lemma AudioListed(e: string)
    requires e in AudioExtensions
    ensures GetFileType(e) == Audio
  {
  }

  lemma CodeListedA(e: string)
    requires e in CodeExtensionsA
    ensures GetFileType(e) == Code
  {
  }

  lemma CodeListedB(e: string)
    requires e in CodeExtensionsB
    ensures GetFileType(e) == Code
  {
  }

  lemma CodeListedC(e: string)
    requires e in CodeExtensionsC
    ensures GetFileType(e) == Code
  {
  }

  lemma CodeListedD(e: string)
    requires e in CodeExtensionsD
    ensures GetFileType(e) == Code
  {
  }

  lemma ArchivesListed(e: string)
    requires e in ArchiveExtensions
    ensures GetFileType(e) == Archives
  {
    if e in [".zip", ".rar", ".7z", ".tar"] {
      ArchivesListedShort(e);
    } else {
      ArchivesListedLong(e);
    }
  }

  lemma ArchivesListedShort(e: string)
    requires e in [".zip", ".rar", ".7z", ".tar"]
    ensures GetFileType(e) == Archives
  {
  }

  lemma ArchivesListedLong(e: string)
    requires e in [".gz", ".bz2", ".xz", ".tar.gz", ".tar.bz2"]
    ensures GetFileType(e) == Archives
  {
  }

  /** An extension listed under a category is classified under it. */
  lemma ListedCategory(c: Category, e: string)
    requires e in ExtensionsOf(c)
    ensures GetFileType(e) == c
  {
    match c
    case Images => ImagesListed(e);
    case Videos => VideosListed(e);
    case Documents => DocumentsListed(e);
    case Audio => AudioListed(e);
    case Code =>
      if e in CodeExtensionsA {
        CodeListedA(e);
      } else if e in CodeExtensionsB {
        CodeListedB(e);
      } else if e in CodeExtensionsC {
        CodeListedC(e);
      } else {
        CodeListedD(e);
      }
    case Archives => ArchivesListed(e);
  }

  /** Only listed extensions reach a category other than `other`. */
  lemma CategoryIsListed(e: string)
    requires GetFileType(e) != Other
    ensures e in ExtensionsOf(GetFileType(e))
  {
  }

  /** The six lists have no extension in common, so the order in which the
      table is tried never decides a classification. */
  lemma TablesDisjoint(c: Category, d: Category, e: string)
    requires c != d
    requires e in ExtensionsOf(c)
    ensures e !in ExtensionsOf(d)
  {
    ListedCategory(c, e);
    if e in ExtensionsOf(d) {
      ListedCategory(d, e);
    }
  }

  // ---------------------------------------------------------------------
  // Extension and category of a name
  // ---------------------------------------------------------------------

  /** `getFileExtension`: from the last dot to the end, lower-cased; empty
      when there is no dot or the dot is the last character. */
  function GetFileExtension(filename: string): (ext: string)
    ensures |ext| <= |filename|
  {
    var i := LastIndexOf(filename, '.');
    if i == -1 || i == |filename| - 1 then "" else Lower(filename[i..])
  }

  /** The extension is empty exactly for a name with no dot or ending in one;
      otherwise it is a dot and at least one more character, none of them a
      dot, and it is the lower-cased tail of the name. */
  lemma ExtensionSpec(filename: string)
    ensures var ext := GetFileExtension(filename);
      && (ext == "" <==> '.' !in filename || filename[|filename| - 1] == '.')
      && (ext != "" ==> |ext| >= 2 && ext[0] == '.' && '.' !in ext[1..])
      && (ext != "" ==> ext == Lower(filename[|filename| - |ext|..]))
  {
    var i := LastIndexOf(filename, '.');
    LastIndexOfSpec(filename, '.');
    if i != -1 && i != |filename| - 1 {
      var ext := Lower(filename[i..]);
      assert forall k :: 1 <= k < |ext| ==> ext[k] == LowerChar(filename[i + 1..][k - 1]);
      assert ext[0] == '.';
    }
  }

  /** `getFileType` as the source states it: the first table entry, from
      index `i` on, whose list includes the extension; `other` when none does. */
  function FindCategory(ext: string, i: nat): (c: Category)
    requires i <= |Table|
    ensures c == Other <==> forall k :: i <= k < |Table| ==> ext !in Table[k].1
    ensures c != Other ==> exists k :: i <= k < |Table| && Table[k].0 == c && ext in Table[k].1
    decreases |Table| - i
  {
    if i == |Table| then Other
    else if ext in Table[i].1 then Table[i].0
    else FindCategory(ext, i + 1)
  }

  /** The same lookup written as one `match` over the table's extensions, in
      table order, so that a `match` case stands for each `includes` hit.
      `GetFileTypeIsTableSearch` proves the two agree on every input. */
  function GetFileType(ext: string): (c: Category)
  {
    match ext
    case ".png" => Images
    case ".jpg" => Images
    case ".jpeg" => Images
    case ".gif" => Images
    case ".svg" => Images
    case ".webp" => Images
    case ".bmp" => Images
    case ".tiff" => Images
    case ".ico" => Images
    case ".mp4" => Videos
    case ".mkv" => Videos
    case ".avi" => Videos
    case ".mov" => Videos
    case ".webm" => Videos
    case ".flv" => Videos
    case ".wmv" => Videos
    case ".m4v" => Videos
    case ".pdf" => Documents
    case ".docx" => Documents
    case ".xlsx" => Documents
    case ".pptx" => Documents
    case ".txt" => Documents
    case ".doc" => Documents
    case ".xls" => Documents
    case ".ppt" => Documents
    case ".rtf" => Documents
    case ".odt" => Documents
    case ".ods" => Documents
    case ".odp" => Documents
    case ".mp3" => Audio
    case ".wav" => Audio
    case ".flac" => Audio
    case ".aac" => Audio
    case ".ogg" => Audio
    case ".wma" => Audio
    case ".m4a" => Audio
    case ".js" => Code
    case ".ts" => Code
    case ".jsx" => Code
    case ".tsx" => Code
    case ".py" => Code
    case ".java" => Code
    case ".cpp" => Code
    case ".c" => Code
    case ".h" => Code
    case ".hpp" => Code
    case ".cs" => Code
    case ".php" => Code
    case ".rb" => Code
    case ".go" => Code
    case ".rs" => Code
    case ".swift" => Code
    case ".kt" => Code
    case ".scala" => Code
    case ".clj" => Code
    case ".sh" => Code
    case ".bat" => Code
    case ".ps1" => Code
    case ".sql" => Code
    case ".html" => Code
    case ".css" => Code
    case ".scss" => Code
    case ".sass" => Code
    case ".less" => Code
    case ".json" => Code
    case ".xml" => Code
    case ".yaml" => Code
    case ".yml" => Code
    case ".toml" => Code
    case ".ini" => Code
    case ".cfg" => Code
    case ".conf" => Code
    case ".zip" => Archives
    case ".rar" => Archives
    case ".7z" => Archives
    case ".tar" => Archives
    case ".gz" => Archives
    case ".bz2" => Archives
    case ".xz" => Archives
    case ".tar.gz" => Archives
    case ".tar.bz2" => Archives
    case _ => Other
  }

  /** The lookup returns the first category in table order whose list holds
      the extension, and `other` for an extension in no list (the empty one
      included). */
  lemma GetFileTypeIsTableSearch(ext: string)
    ensures GetFileType(ext) == FindCategory(ext, 0)
  {
    var c := GetFileType(ext);
    assert forall k :: 0 <= k < |Table| ==> ExtensionsOf(Table[k].0) == Table[k].1;
    if c == Other {
      forall k | 0 <= k < |Table| ensures ext !in Table[k].1 {
        if ext in Table[k].1 {
          ListedCategory(Table[k].0, ext);
        }
      }
    } else {
      CategoryIsListed(ext);
      var f := FindCategory(ext, 0);
      if f != c {
        var k :| 0 <= k < |Table| && Table[k].0 == f && ext in Table[k].1;
        ListedCategory(f, ext);
      }
    }
  }

  /** The category a file name is counted under. */
  function CategoryOf(filename: string): Category {
    GetFileType(GetFileExtension(filename))
  }

  /** A category other than `other` is chosen exactly for the extensions in
      its list. */
  lemma GetFileTypeSpec(e: string, c: Category)
    requires c != Other
    ensures GetFileType(e) == c <==> e in ExtensionsOf(c)
  {
    if e in ExtensionsOf(c) {
      ListedCategory(c, e);
    } else if GetFileType(e) == c {
      CategoryIsListed(e);
    }
  }

  /** A category other than `other` is reached exactly when the lower-cased
      last dot-segment of the name is in that category's list. */
  lemma CategoryOfSpec(filename: string, c: Category)
    requires c != Other
    ensures CategoryOf(filename) == c <==> GetFileExtension(filename) in ExtensionsOf(c)
  {
    GetFileTypeSpec(GetFileExtension(filename), c);
  }

  /** A name without an extension is always `other`. */
  lemma NoExtensionIsOther(filename: string)
    requires '.' !in filename || filename[|filename| - 1] == '.'
    ensures CategoryOf(filename) == Other
  {
    ExtensionSpec(filename);
  }

  /** `.tar.gz` and `.tar.bz2` are listed but can never be an extension: only
      the last dot-segment is ever looked up. */
  lemma DoubleExtensionsNeverMatch(filename: string)
    ensures GetFileExtension(filename) != ".tar.gz"
    ensures GetFileExtension(filename) != ".tar.bz2"
  {
    ExtensionSpec(filename);
    var e := GetFileExtension(filename);
    if |e| > 4 {
      assert e[4] == e[1..][3];
    }
  }

  /** So `x.tar.gz` counts as an archive through `.gz`. */
  lemma TarGzIsArchive()
    ensures GetFileExtension("x.tar.gz") == ".gz"
    ensures CategoryOf("x.tar.gz") == Archives
  {
    var name := "x.tar.gz";
    LastDotAt(name, 5);
    assert name[5..] == ".gz";
    assert Lower(".gz") == ".gz";
    CategoryOfSpec(name, Archives);
  }

  /** Locates the last dot of a name from two facts about it. */
  lemma LastDotAt(s: string, i: nat)
    requires i < |s| && s[i] == '.'
    requires '.' !in s[i + 1..]
    ensures LastIndexOf(s, '.') == i
  {
    LastIndexOfSpec(s, '.');
    assert s[i] in s;
  }

  lemma {:induction false} LowerKeepsLastDot(a: string, b: string)
    requires Lower(a) == Lower(b)
    ensures LastIndexOf(a, '.') == LastIndexOf(b, '.')
  {
    if |a| > 0 {
      assert Lower(a[..|a| - 1]) == Lower(b[..|b| - 1]);
      assert LowerChar(a[|a| - 1]) == LowerChar(b[|b| - 1]);
      LowerKeepsLastDot(a[..|a| - 1], b[..|b| - 1]);
    }
  }

  /** Classification ignores ASCII case: names that lower-case alike land in
      the same category. */
  lemma CaseInsensitive(a: string, b: string)
    requires Lower(a) == Lower(b)
    ensures GetFileExtension(a) == GetFileExtension(b)
    ensures CategoryOf(a) == CategoryOf(b)
  {
    LowerKeepsLastDot(a, b);
    var i := LastIndexOf(a, '.');
    if i != -1 && i != |a| - 1 {
      LowerSlice(a, i);
      LowerSlice(b, i);
    }
  }

  lemma JpgExtension()
    ensures GetFileExtension("photo.jpg") == ".jpg"
  {
    var name := "photo.jpg";
    LastDotAt(name, 5);
    assert name[5..] == ".jpg";
  }

  lemma PhotoJpg()
    ensures CategoryOf("PHOTO.JPG") == CategoryOf("photo.jpg") == Images
  {
    assert Lower("PHOTO.JPG") == "photo.jpg";
    assert Lower("photo.jpg") == "photo.jpg";
    CaseInsensitive("PHOTO.JPG", "photo.jpg");
    JpgExtension();
  }

  // ---------------------------------------------------------------------
  // The counters
  // ---------------------------------------------------------------------

  /** `FileTypeClassification`: one counter per category. */
  datatype Counts = Counts(images: nat, videos: nat, documents: nat, audio: nat,
                           code: nat, archives: nat, other: nat)
  {
    function Get(c: Category): nat {
      match c
      case Images => images
      case Videos => videos
      case Documents => documents
      case Audio => audio
      case Code => code
      case Archives => archives
      case Other => other
    }

    /** The counters as `Object.values` lists them. */
    function Values(): (vs: seq<nat>)
      ensures |vs| == |AllCategories|
      ensures forall i :: 0 <= i < |vs| ==> vs[i] == Get(AllCategories[i])
    {
      [images, videos, documents, audio, code, archives, other]
    }

    function Total(): nat {
      images + videos + documents + audio + code + archives + other
    }

    /** `this.classification[fileType]++`. */
    function Increment(c: Category): (r: Counts)
      ensures r.Get(c) == Get(c) + 1
      ensures forall d :: d != c ==> r.Get(d) == Get(d)
      ensures r.Total() == Total() + 1
    {
      match c
      case Images => this.(images := images + 1)
      case Videos => this.(videos := videos + 1)
      case Documents => this.(documents := documents + 1)
      case Audio => this.(audio := audio + 1)
      case Code => this.(code := code + 1)
      case Archives => this.(archives := archives + 1)
      case Other => this.(other := other + 1)
    }
  }

  /** The categories with a non-zero counter, in key order. */
  function NonZeroCategories(types: Counts): seq<Category> {
    Sorting.Filter(AllCategories, (c: Category) => types.Get(c) > 0)
  }

  /** Every counter at zero, as a new classifier starts and `reset` leaves it. */
  const Zero: Counts := Counts(0, 0, 0, 0, 0, 0, 0)

  /** The state of a `FileClassifier`: its counters. Being a value, a copy
      handed out by `GetClassification` can never be changed by later calls. */
  datatype FileClassifier = FileClassifier(classification: Counts)
  {
    /** `classifyFile`: the counter of the name's category goes up by one
        (see `ClassifyFileCounts`). */
    function ClassifyFile(filename: string): FileClassifier {
      FileClassifier(classification.Increment(CategoryOf(filename)))
    }

    /** `reset`: all seven counters back to zero, whatever they were. */
    function Reset(): (r: FileClassifier)
      ensures forall d :: r.classification.Get(d) == 0
      ensures r.classification.Total() == 0
    {
      FileClassifier(Counts(0, 0, 0, 0, 0, 0, 0))
    }

    function GetClassification(): Counts {
      classification
    }
  }

  /** Classifying a name raises exactly one counter, its category's, by one. */
  lemma ClassifyFileCounts(fc: FileClassifier, filename: string)
    ensures var r := fc.ClassifyFile(filename);
      && r.classification.Get(CategoryOf(filename)) == fc.classification.Get(CategoryOf(filename)) + 1
      && (forall d :: d != CategoryOf(filename) ==> r.classification.Get(d) == fc.classification.Get(d))
      && r.classification.Total() == fc.classification.Total() + 1
  {
  }

  /** Classifies each name in turn. */
  function ClassifyAll(fc: FileClassifier, names: seq<string>): FileClassifier
    decreases |names|
  {
    if |names| == 0 then fc else ClassifyAll(fc.ClassifyFile(names[0]), names[1..])
  }

  /** The categories of a list of names, one per name. */
  function Categories(names: seq<string>): (cats: seq<Category>)
    ensures |cats| == |names|
    ensures forall i :: 0 <= i < |names| ==> cats[i] == CategoryOf(names[i])
  {
    seq(|names|, i requires 0 <= i < |names| => CategoryOf(names[i]))
  }

  /** Counts each category of `cats` on top of `counts`. */
  function AddAll(counts: Counts, cats: seq<Category>): Counts
    decreases |cats|
  {
    if |cats| == 0 then counts else AddAll(counts.Increment(cats[0]), cats[1..])
  }

  /** How many times `c` occurs in `cats`. */
  function Occurrences(cats: seq<Category>, c: Category): nat {
    if |cats| == 0 then 0
    else (if cats[0] == c then 1 else 0) + Occurrences(cats[1..], c)
  }

  lemma {:induction false} ClassifyAllIsAddAll(fc: FileClassifier, names: seq<string>)
    ensures ClassifyAll(fc, names).classification == AddAll(fc.classification, Categories(names))
    decreases |names|
  {
    if |names| > 0 {
      var next := fc.ClassifyFile(names[0]);
      ClassifyAllIsAddAll(next, names[1..]);
      var cats := Categories(names);
      assert next.classification == fc.classification.Increment(cats[0]);
      assert cats[1..] == Categories(names[1..]);
    }
  }

  /** Adding a list of categories raises each counter by that category's
      number of occurrences, and the sum of the counters by the list's length. */
  lemma {:induction false} AddAllCounts(counts: Counts, cats: seq<Category>, c: Category)
    ensures AddAll(counts, cats).Get(c) == counts.Get(c) + Occurrences(cats, c)
    ensures AddAll(counts, cats).Total() == counts.Total() + |cats|
    decreases |cats|
  {
    if |cats| > 0 {
      var next := counts.Increment(cats[0]);
      AddAllCounts(next, cats[1..], c);
      assert next.Get(c) == counts.Get(c) + (if cats[0] == c then 1 else 0);
    }
  }

  lemma {:induction false} ClassifyAllConcat(fc: FileClassifier, a: seq<string>, b: seq<string>)
    ensures ClassifyAll(fc, a + b) == ClassifyAll(ClassifyAll(fc, a), b)
    decreases |a|
  {
    if |a| > 0 {
      assert (a + b)[0] == a[0];
      assert (a + b)[1..] == a[1..] + b;
      ClassifyAllConcat(fc.ClassifyFile(a[0]), a[1..], b);
    } else {
      assert a + b == b;
    }
  }

  /** From all-zero counters, each counter ends at its category's number of
      occurrences and the counters add up to the list's length. */
  lemma ZeroAddAll(cats: seq<Category>, c: Category)
    ensures AddAll(Zero, cats).Get(c) == Occurrences(cats, c)
    ensures AddAll(Zero, cats).Total() == |cats|
  {
    AddAllCounts(Zero, cats, c);
  }

  /** After a reset, each counter is exactly the number of names classified
      since that fall in its category, and the counters add up to the number
      of names, whatever the classifier had counted before the reset. */
  lemma ClassifyAfterReset(fc: FileClassifier, names: seq<string>, c: Category)
    ensures ClassifyAll(fc.Reset(), names).classification.Get(c) == Occurrences(Categories(names), c)
    ensures ClassifyAll(fc.Reset(), names).classification.Total() == |names|
  {
    ClassifyAllIsAddAll(fc.Reset(), names);
    ZeroAddAll(Categories(names), c);
  }
}
