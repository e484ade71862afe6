/** The parts of the HTML report (src/html-report.ts) that compute
    something rather than lay out a page: escaping text for HTML, the data
    behind the two charts, and the number of categories the summary card
    reports. */
module HtmlReport {
  import opened Wrappers
  import opened Strings
  import opened Sorting
  import opened Records
  import opened Classifier

  // ---------------------------------------------------------------------
  // escapeHtml
  // ---------------------------------------------------------------------

  /** `s.replace(/c/g, by)` for a single character `c`: one left-to-right
      pass, so text that `by` brings in is never looked at again. */
  function ReplaceAll(s: string, c: char, repl: string): (r: string)
    ensures c !in repl ==> c !in r
    ensures forall d :: d in r ==> (d in s && d != c) || d in repl
  {
    if |s| == 0 then []
    else (if s[0] == c then repl else [s[0]]) + ReplaceAll(s[1..], c, repl)
  }

  /** `escapeHtml`: ampersands first, then `<`, `>`, `"` and `'`. */
  function EscapeHtml(text: string): (r: string)
    ensures '<' !in r && '>' !in r && '"' !in r && '\'' !in r
  {
    var amp := ReplaceAll(text, '&', "&amp;");
    var lt := ReplaceAll(amp, '<', "&lt;");
    var gt := ReplaceAll(lt, '>', "&gt;");
    var quot := ReplaceAll(gt, '"', "&quot;");
    ReplaceAll(quot, '\'', "&#39;")
  }

  /** The text a single character becomes in escaped HTML. */
  function EscapeChar(ch: char): string {
    match ch
    case '&' => "&amp;"
    case '<' => "&lt;"
    case '>' => "&gt;"
    case '"' => "&quot;"
    case '\'' => "&#39;"
    case _ => [ch]
  }

  /** Escaping character by character, in one pass. */
  function EscapeEach(s: string): string {
    if |s| == 0 then [] else EscapeChar(s[0]) + EscapeEach(s[1..])
  }

  /** What a browser reads back: the five entities become their characters,
      every other character stands for itself. */
  function UnescapeHtml(s: string): string
    decreases |s|
  {
    if |s| == 0 then []
    else if StartsWith(s, "&amp;") then "&" + UnescapeHtml(s[5..])
    else if StartsWith(s, "&lt;") then "<" + UnescapeHtml(s[4..])
    else if StartsWith(s, "&gt;") then ">" + UnescapeHtml(s[4..])
    else if StartsWith(s, "&quot;") then "\"" + UnescapeHtml(s[6..])
    else if StartsWith(s, "&#39;") then "'" + UnescapeHtml(s[5..])
    else [s[0]] + UnescapeHtml(s[1..])
  }

  lemma {:induction false} ReplaceAllConcat(a: string, b: string, c: char, repl: string)
    ensures ReplaceAll(a + b, c, repl) == ReplaceAll(a, c, repl) + ReplaceAll(b, c, repl)
  {
    if |a| > 0 {
      assert (a + b)[1..] == a[1..] + b;
      ReplaceAllConcat(a[1..], b, c, repl);
    } else {
      assert a + b == b;
    }
  }

  lemma {:induction false} ReplaceAllAbsent(s: string, c: char, repl: string)
    requires c !in s
    ensures ReplaceAll(s, c, repl) == s
  {
    if |s| > 0 {
      ReplaceAllAbsent(s[1..], c, repl);
    }
  }

  lemma EscapeHtmlConcat(a: string, b: string)
    ensures EscapeHtml(a + b) == EscapeHtml(a) + EscapeHtml(b)
  {
    var amp := ReplaceAll(a, '&', "&amp;");
    var lt := ReplaceAll(amp, '<', "&lt;");
    var gt := ReplaceAll(lt, '>', "&gt;");
    var quot := ReplaceAll(gt, '"', "&quot;");
    var amp' := ReplaceAll(b, '&', "&amp;");
    var lt' := ReplaceAll(amp', '<', "&lt;");
    var gt' := ReplaceAll(lt', '>', "&gt;");
    var quot' := ReplaceAll(gt', '"', "&quot;");
    ReplaceAllConcat(a, b, '&', "&amp;");
    ReplaceAllConcat(amp, amp', '<', "&lt;");
    ReplaceAllConcat(lt, lt', '>', "&gt;");
    ReplaceAllConcat(gt, gt', '"', "&quot;");
    ReplaceAllConcat(quot, quot', '\'', "&#39;");
  }

  /** The passes after the first leave an entity they did not bring in
      alone. */
  lemma LaterPassesKeep(s: string)
    requires '<' !in s && '>' !in s && '"' !in s && '\'' !in s
    ensures ReplaceAll(ReplaceAll(ReplaceAll(ReplaceAll(s, '<', "&lt;"), '>', "&gt;"), '"', "&quot;"), '\'', "&#39;") == s
  {
    ReplaceAllAbsent(s, '<', "&lt;");
    ReplaceAllAbsent(s, '>', "&gt;");
    ReplaceAllAbsent(s, '"', "&quot;");
    ReplaceAllAbsent(s, '\'', "&#39;");
  }

  lemma ReplaceSingle(x: char, c: char, repl: string)
    ensures ReplaceAll([x], c, repl) == if x == c then repl else [x]
  {
    assert [x][1..] == [];
  }

  lemma EscapeAmp()
    ensures EscapeHtml("&") == "&amp;"
  {
    ReplaceSingle('&', '&', "&amp;");
    LaterPassesKeep("&amp;");
  }

  lemma EscapeLt()
    ensures EscapeHtml("<") == "&lt;"
  {
    ReplaceSingle('<', '&', "&amp;");
    ReplaceSingle('<', '<', "&lt;");
    var lt := ReplaceAll(ReplaceAll("<", '&', "&amp;"), '<', "&lt;");
    assert lt == "&lt;";
    assert '>' !in lt && '"' !in lt && '\'' !in lt;
    ReplaceAllAbsent(lt, '>', "&gt;");
    ReplaceAllAbsent(lt, '"', "&quot;");
    ReplaceAllAbsent(lt, '\'', "&#39;");
  }

  lemma EscapeGt()
    ensures EscapeHtml(">") == "&gt;"
  {
    ReplaceSingle('>', '&', "&amp;");
    ReplaceSingle('>', '<', "&lt;");
    ReplaceSingle('>', '>', "&gt;");
    ReplaceAllAbsent("&gt;", '"', "&quot;");
    ReplaceAllAbsent("&gt;", '\'', "&#39;");
  }

  lemma EscapeQuot()
    ensures EscapeHtml("\"") == "&quot;"
  {
    ReplaceSingle('"', '&', "&amp;");
    ReplaceSingle('"', '<', "&lt;");
    ReplaceSingle('"', '>', "&gt;");
    ReplaceSingle('"', '"', "&quot;");
    ReplaceAllAbsent("&quot;", '\'', "&#39;");
  }

  lemma EscapeApos()
    ensures EscapeHtml("'") == "&#39;"
  {
    ReplaceSingle('\'', '&', "&amp;");
    ReplaceSingle('\'', '<', "&lt;");
    ReplaceSingle('\'', '>', "&gt;");
    ReplaceSingle('\'', '"', "&quot;");
    ReplaceSingle('\'', '\'', "&#39;");
  }

  lemma EscapeSingle(ch: char)
    ensures EscapeHtml([ch]) == EscapeChar(ch)
  {
    if ch == '&' {
      EscapeAmp();
    } else if ch == '<' {
      EscapeLt();
    } else if ch == '>' {
      EscapeGt();
    } else if ch == '"' {
      EscapeQuot();
    } else if ch == '\'' {
      EscapeApos();
    } else {
      ReplaceSingle(ch, '&', "&amp;");
      LaterPassesKeep([ch]);
    }
  }

  /** The five passes of `escapeHtml` escape each character on its own:
      what one pass brings in is never changed by a later one. */
  lemma {:induction false} EscapeHtmlIsEach(s: string)
    ensures EscapeHtml(s) == EscapeEach(s)
  {
    if |s| > 0 {
      assert s == [s[0]] + s[1..];
      EscapeHtmlConcat([s[0]], s[1..]);
      EscapeSingle(s[0]);
      EscapeHtmlIsEach(s[1..]);
    }
  }

  /** Every entity starts with an ampersand. */
  lemma EntitiesStartWithAmp(t: string)
    requires |t| > 0 && t[0] != '&'
    ensures !StartsWith(t, "&amp;") && !StartsWith(t, "&lt;") && !StartsWith(t, "&gt;")
    ensures !StartsWith(t, "&quot;") && !StartsWith(t, "&#39;")
  {
    assert forall p: string :: |p| > 0 && StartsWith(t, p) ==> t[0] == p[0];
  }

  lemma UnescapeAmp(rest: string)
    ensures UnescapeHtml("&amp;" + rest) == "&" + UnescapeHtml(rest)
  {
    var t := "&amp;" + rest;
    assert t[..5] == "&amp;" && t[5..] == rest;
  }

  lemma UnescapeLt(rest: string)
    ensures UnescapeHtml("&lt;" + rest) == "<" + UnescapeHtml(rest)
  {
    var t := "&lt;" + rest;
    assert t[..4] == "&lt;" && t[4..] == rest;
    assert t[1] == 'l';
  }

  lemma UnescapeGt(rest: string)
    ensures UnescapeHtml("&gt;" + rest) == ">" + UnescapeHtml(rest)
  {
    var t := "&gt;" + rest;
    assert t[..4] == "&gt;" && t[4..] == rest;
    assert t[1] == 'g';
  }

  lemma UnescapeQuot(rest: string)
    ensures UnescapeHtml("&quot;" + rest) == "\"" + UnescapeHtml(rest)
  {
    var t := "&quot;" + rest;
    assert t[..6] == "&quot;" && t[6..] == rest;
    assert t[1] == 'q';
  }

  lemma UnescapeApos(rest: string)
    ensures UnescapeHtml("&#39;" + rest) == "'" + UnescapeHtml(rest)
  {
    var t := "&#39;" + rest;
    assert t[..5] == "&#39;" && t[5..] == rest;
    assert t[1] == '#';
  }

  lemma UnescapeOther(ch: char, rest: string)
    requires ch != '&'
    ensures UnescapeHtml([ch] + rest) == [ch] + UnescapeHtml(rest)
  {
    var t := [ch] + rest;
    EntitiesStartWithAmp(t);
    assert t[1..] == rest;
  }

  /** One escaped character reads back as itself, whatever follows. */
  lemma UnescapeChar(ch: char, rest: string)
    ensures UnescapeHtml(EscapeChar(ch) + rest) == [ch] + UnescapeHtml(rest)
  {
    match ch
    case '&' => UnescapeAmp(rest);
    case '<' => UnescapeLt(rest);
    case '>' => UnescapeGt(rest);
    case '"' => UnescapeQuot(rest);
    case '\'' => UnescapeApos(rest);
    case _ => UnescapeOther(ch, rest);
  }

  lemma {:induction false} UnescapeEach(s: string)
    ensures UnescapeHtml(EscapeEach(s)) == s
  {
    if |s| > 0 {
      var rest := EscapeEach(s[1..]);
      assert EscapeEach(s) == EscapeChar(s[0]) + rest;
      UnescapeChar(s[0], rest);
      UnescapeEach(s[1..]);
      assert s == [s[0]] + s[1..];
    }
  }

  /** A browser shows exactly the text that was escaped. */
  lemma EscapeHtmlRoundTrip(text: string)
    ensures UnescapeHtml(EscapeHtml(text)) == text
  {
    EscapeHtmlIsEach(text);
    UnescapeEach(text);
  }

  /** Text without any of the five characters passes through unchanged. */
  lemma EscapeHtmlPlain(text: string)
    requires '&' !in text && '<' !in text && '>' !in text && '"' !in text && '\'' !in text
    ensures EscapeHtml(text) == text
  {
    ReplaceAllAbsent(text, '&', "&amp;");
    LaterPassesKeep(text);
  }

  // ---------------------------------------------------------------------
  // Chart data
  // ---------------------------------------------------------------------

  /** `{ labels, data }` of a chart. */
  datatype ChartData = ChartData(labels: seq<string>, data: seq<nat>)

  /** The label the file type chart gives a category. */
  function TypeLabel(c: Category): string {
    match c
    case Code => "\U{1F9D1}\U{200D}\U{1F4BB} Code"
    case Images => "\U{1F4F7} Images"
    case Documents => "\U{1F4C4} Documents"
    case Videos => "\U{1F3AC} Videos"
    case Audio => "\U{1F3B5} Audio"
    case Archives => "\U{1F5C3}\U{FE0F} Archives"
    case Other => "\U{2753} Other"
  }

  /** The `forEach` over the counters' entries from `cs` on: a label and a
      value pushed for each positive counter. */
  function TypeEntries(types: Counts, cs: seq<Category>): (d: ChartData)
    ensures |d.labels| == |d.data|
  {
    if |cs| == 0 then ChartData([], [])
    else
      var rest := TypeEntries(types, cs[1..]);
      if types.Get(cs[0]) > 0
      then ChartData([TypeLabel(cs[0])] + rest.labels, [types.Get(cs[0])] + rest.data)
      else rest
  }

  /** `getFileTypeChartData`. */
  function FileTypeChartData(types: Counts): ChartData {
    TypeEntries(types, AllCategories)
  }

  function Sum(xs: seq<nat>): nat {
    if |xs| == 0 then 0 else xs[0] + Sum(xs[1..])
  }

  /** The counters of `cs`, added up. */
  function CountsOf(types: Counts, cs: seq<Category>): nat {
    if |cs| == 0 then 0 else types.Get(cs[0]) + CountsOf(types, cs[1..])
  }

  /** `d` is the chart of the categories `nz`: one bar per category, in
      order, labelled with it and as high as its (positive) counter, the bars
      adding up to `total`. */
  predicate ChartOf(types: Counts, d: ChartData, nz: seq<Category>, total: nat) {
    && |d.labels| == |nz| && |d.data| == |nz|
    && (forall i :: 0 <= i < |nz| ==> d.labels[i] == TypeLabel(nz[i]) && d.data[i] == types.Get(nz[i]))
    && (forall i :: 0 <= i < |d.data| ==> d.data[i] > 0)
    && Sum(d.data) == total
  }

  /** The entries from `cs` on chart exactly the categories of `cs` with a
      positive counter, and add up to all of their counters. */
  lemma {:induction false} TypeEntriesSpec(types: Counts, cs: seq<Category>)
    ensures ChartOf(types, TypeEntries(types, cs), Filter(cs, (c: Category) => types.Get(c) > 0), CountsOf(types, cs))
  {
    if |cs| > 0 {
      var p := (c: Category) => types.Get(c) > 0;
      var rest := TypeEntries(types, cs[1..]);
      TypeEntriesSpec(types, cs[1..]);
      if types.Get(cs[0]) > 0 {
        assert Filter(cs, p) == [cs[0]] + Filter(cs[1..], p);
        ChartCons(types, cs[0], rest, Filter(cs[1..], p), CountsOf(types, cs[1..]));
      } else {
        assert Filter(cs, p) == Filter(cs[1..], p);
      }
    }
  }

  /** A positive counter in front of a chart adds its bar in front. */
  lemma ChartCons(types: Counts, c: Category, rest: ChartData, nz: seq<Category>, total: nat)
    requires types.Get(c) > 0
    requires ChartOf(types, rest, nz, total)
    ensures ChartOf(types, ChartData([TypeLabel(c)] + rest.labels, [types.Get(c)] + rest.data),
                    [c] + nz, types.Get(c) + total)
  {
    var d := ChartData([TypeLabel(c)] + rest.labels, [types.Get(c)] + rest.data);
    assert d.data[1..] == rest.data;
  }

  lemma CountsOfAll(types: Counts)
    ensures CountsOf(types, AllCategories) == types.Total()
  {
    var cs := AllCategories;
    assert CountsOf(types, cs[6..]) == types.other by { assert cs[6..][1..] == []; }
    assert CountsOf(types, cs[5..]) == types.archives + types.other by { assert cs[5..][1..] == cs[6..]; }
    assert CountsOf(types, cs[4..]) == types.code + types.archives + types.other by { assert cs[4..][1..] == cs[5..]; }
    assert CountsOf(types, cs[3..]) == types.audio + types.code + types.archives + types.other by {
      assert cs[3..][1..] == cs[4..];
    }
    assert CountsOf(types, cs[2..]) == types.documents + types.audio + types.code + types.archives + types.other by {
      assert cs[2..][1..] == cs[3..];
    }
    assert CountsOf(types, cs[1..]) == types.Total() - types.images by { assert cs[1..][1..] == cs[2..]; }
  }

  /** The file type chart has one bar per non-empty category, in key order,
      labelled with the category and as high as its counter; the bars add
      up to the number of files classified. */
  lemma FileTypeChartSpec(types: Counts)
    ensures var d := FileTypeChartData(types);
      var nz := NonZeroCategories(types);
      && |d.labels| == |d.data| == |nz|
      && (forall i :: 0 <= i < |nz| ==> d.labels[i] == TypeLabel(nz[i]) && d.data[i] == types.Get(nz[i]))
      && (forall i :: 0 <= i < |d.data| ==> d.data[i] > 0)
      && Sum(d.data) == types.Total()
  {
    TypeEntriesSpec(types, AllCategories);
    CountsOfAll(types);
    assert FileTypeChartData(types) == TypeEntries(types, AllCategories);
  }

  /** A sum of positive numbers is zero only when there are none. */
  lemma SumPositive(xs: seq<nat>)
    requires forall i :: 0 <= i < |xs| ==> xs[i] > 0
    ensures Sum(xs) == 0 <==> |xs| == 0
  {
    if |xs| > 0 {
      assert xs[0] > 0;
    }
  }

  /** Different categories get different labels. */
  lemma TypeLabelsDistinct(c: Category, d: Category)
    requires c != d
    ensures TypeLabel(c) != TypeLabel(d)
  {
    assert TypeLabel(c)[0] != TypeLabel(d)[0];
  }

  /** `countNonZeroTypes`: how many counters are positive. */
  function CountNonZeroTypes(types: Counts): nat {
    |Filter(types.Values(), (v: nat) => v > 0)|
  }

  /** The positive counters among those of `cs`. */
  function ValuesOf(types: Counts, cs: seq<Category>): (vs: seq<nat>)
    ensures |vs| == |cs| && forall i :: 0 <= i < |cs| ==> vs[i] == types.Get(cs[i])
  {
    seq(|cs|, i requires 0 <= i < |cs| => types.Get(cs[i]))
  }

  lemma {:induction false} PositiveValues(types: Counts, cs: seq<Category>)
    ensures |Filter(ValuesOf(types, cs), (v: nat) => v > 0)| == |Filter(cs, (c: Category) => types.Get(c) > 0)|
  {
    if |cs| > 0 {
      PositiveValues(types, cs[1..]);
      assert ValuesOf(types, cs)[1..] == ValuesOf(types, cs[1..]);
    }
  }

  /** The summary card's count of file types agrees with the file type
      chart and the CSV export: it is the number of non-empty categories, at
      most seven, and zero exactly when no file was classified. */
  lemma CountNonZeroTypesSpec(types: Counts)
    ensures CountNonZeroTypes(types) == |NonZeroCategories(types)| == |FileTypeChartData(types).labels|
    ensures CountNonZeroTypes(types) <= |AllCategories|
    ensures CountNonZeroTypes(types) == 0 <==> types.Total() == 0
  {
    assert types.Values() == ValuesOf(types, AllCategories);
    PositiveValues(types, AllCategories);
    FileTypeChartSpec(types);
    SumPositive(FileTypeChartData(types).data);
  }

  predicate IsSeparator(ch: char) {
    ch == '/' || ch == '\\'
  }

  /** `path.split(/[/\\]/).pop()`: what follows the last slash or
      backslash, the whole text when there is none. */
  function LastSegment(s: string): (r: string)
    ensures |r| <= |s| && r == s[|s| - |r|..]
    ensures forall k :: 0 <= k < |r| ==> !IsSeparator(r[k])
    ensures |r| < |s| ==> IsSeparator(s[|s| - |r| - 1])
  {
    if |s| == 0 then []
    else if IsSeparator(s[|s| - 1]) then []
    else LastSegment(s[..|s| - 1]) + [s[|s| - 1]]
  }

  /** The file name a chart label starts from: the last segment, or the
      whole path when the path ends with a separator. */
  function FileName(path: string): string {
    var name := LastSegment(path);
    if |name| == 0 then path else name
  }

  /** Labels longer than this are shortened. */
  const MaxLabelLength := 20

  /** A name over twenty characters keeps its first seventeen and gains an
      ellipsis. */
  function ShortLabel(name: string): string {
    if |name| > MaxLabelLength then name[..17] + "..." else name
  }

  /** `getLargestFilesChartData`: one bar per file, labelled with its
      shortened name and as high as its size; nothing when the list is
      missing or empty. */
  function LargestFilesChartData(topFiles: Option<seq<LargeFile>>): ChartData {
    if topFiles.None? || |topFiles.value| == 0 then ChartData([], [])
    else
      var files := topFiles.value;
      ChartData(seq(|files|, i requires 0 <= i < |files| => ShortLabel(FileName(files[i].path))),
                seq(|files|, i requires 0 <= i < |files| => files[i].size))
  }

  /** A label is never longer than twenty characters; a name that fits is
      shown whole, a longer one by its first seventeen characters and an
      ellipsis. */
  lemma ShortLabelSpec(name: string)
    ensures |ShortLabel(name)| <= MaxLabelLength
    ensures ShortLabel(name) == name <==> |name| <= MaxLabelLength
    ensures |name| > MaxLabelLength ==> StartsWith(name, ShortLabel(name)[..17]) && EndsWith(ShortLabel(name), "...")
  {
    if |name| > MaxLabelLength {
      var l := ShortLabel(name);
      assert l[..17] == name[..17];
      assert l[|l| - 3..] == "...";
    }
  }

  /** After a separator (or at the very start) a name without separators
      is the last segment. */
  lemma {:induction false} LastSegmentAfter(a: string, name: string)
    requires |a| == 0 || IsSeparator(a[|a| - 1])
    requires forall k :: 0 <= k < |name| ==> !IsSeparator(name[k])
    ensures LastSegment(a + name) == name
  {
    if |name| == 0 {
      assert a + name == a;
    } else {
      var init, last := name[..|name| - 1], name[|name| - 1];
      var s := a + name;
      assert LastSegment(s) == LastSegment(a + init) + [last] by {
        assert s[..|s| - 1] == a + init && s[|s| - 1] == last;
      }
      assert LastSegment(a + init) == init by {
        LastSegmentAfter(a, init);
      }
      assert name == init + [last];
    }
  }

  /** The name of a file joined onto a directory is the file's own name,
      whatever the directory looks like. */
  lemma FileNameOfJoin(dir: string, name: string)
    requires |name| > 0 && forall k :: 0 <= k < |name| ==> !IsSeparator(name[k])
    ensures FileName(JoinPath(dir, name)) == name
  {
    if |dir| == 0 {
      LastSegmentAfter([], name);
      assert [] + name == name;
    } else if dir[|dir| - 1] == '/' {
      LastSegmentAfter(dir, name);
    } else {
      LastSegmentAfter(dir + "/", name);
    }
  }

  /** The largest-files chart has one bar per file, in list order, as high
      as the file's size, under a label of at most twenty characters. */
  lemma LargestFilesChartSpec(topFiles: Option<seq<LargeFile>>)
    ensures var d := LargestFilesChartData(topFiles);
      var files := if topFiles.Some? then topFiles.value else [];
      && |d.labels| == |d.data| == |files|
      && (forall i :: 0 <= i < |files| ==> d.data[i] == files[i].size)
      && (forall i :: 0 <= i < |files| ==> |d.labels[i]| <= MaxLabelLength)
  {
    var d := LargestFilesChartData(topFiles);
    forall i | 0 <= i < |d.labels| ensures |d.labels[i]| <= MaxLabelLength {
      ShortLabelSpec(FileName(topFiles.value[i].path));
    }
  }

  /** The label of a file at `dir` joined with `name` is the name itself
      when it has at most twenty characters, and otherwise its first
      seventeen characters followed by an ellipsis. */
  lemma LargestFilesChartLabel(files: seq<LargeFile>, i: nat, dir: string, name: string)
    requires i < |files| && files[i].path == JoinPath(dir, name)
    requires |name| > 0 && forall k :: 0 <= k < |name| ==> !IsSeparator(name[k])
    ensures var d := LargestFilesChartData(Some(files));
      && i < |d.labels|
      && (|name| <= MaxLabelLength ==> d.labels[i] == name)
      && (|name| > MaxLabelLength ==> d.labels[i] == name[..17] + "...")
  {
    FileNameOfJoin(dir, name);
  }
}
