/** The CSV exports of `CSVExporter` (src/export.ts) and the result record
    they read. Rows are joined with `\n`; a cell is written either bare or
    between double quotes, and neither kind is escaped, so a reader gets
    the values back exactly when a bare value holds no comma or quote and a
    quoted value holds no quote (`ParseRowOfRow`). */
module CsvExport {
  import opened Wrappers
  import opened Strings
  import opened Records
  import opened Classifier
  import opened Sorting

  // ---------------------------------------------------------------------
  // The result record
  // ---------------------------------------------------------------------

  /** `duplicateStats`. */
  datatype DuplicateStats = DuplicateStats(totalGroups: nat, totalWastedSpace: nat, totalWastedSpaceFormatted: string)

  /** `ExtendedAnalysisResult`: the basic `AnalysisResult` fields and the
      optional results of the extra analyses. `totalSizeMB` is the number
      `formatSizeInMB` returns, as the text a template literal prints for
      it. */
  datatype AnalysisResult = AnalysisResult(
    path: string,
    totalSizeBytes: nat,
    totalSizeMB: string,
    folders: nat,
    files: nat,
    types: Counts,
    largeFiles: Option<seq<LargeFile>>,
    duplicateGroups: Option<seq<DuplicateGroup>>,
    duplicateStats: Option<DuplicateStats>,
    emptyFiles: Option<seq<EmptyFile>>,
    topLargestFiles: Option<seq<LargeFile>>,
    treeView: Option<string>)

  // ---------------------------------------------------------------------
  // Cells and rows
  // ---------------------------------------------------------------------

  /** One comma-separated value as the templates write it. */
  datatype Cell = Bare(text: string) | Quoted(text: string)

  function Encode(c: Cell): string {
    match c
    case Bare(t) => t
    case Quoted(t) => "\"" + t + "\""
  }

  /** The cells of a row, separated by commas. */
  function Row(cells: seq<Cell>): string {
    if |cells| == 0 then ""
    else if |cells| == 1 then Encode(cells[0])
    else Encode(cells[0]) + "," + Row(cells[1..])
  }

  function Texts(cells: seq<Cell>): (ts: seq<string>)
    ensures |ts| == |cells|
    ensures forall i :: 0 <= i < |cells| ==> ts[i] == cells[i].text
  {
    seq(|cells|, i requires 0 <= i < |cells| => cells[i].text)
  }

  /** A cell a reader can take back: no line break anywhere, no quote, and
      no comma outside quotes. */
  predicate Readable(c: Cell) {
    '\n' !in c.text && '"' !in c.text && (c.Bare? ==> ',' !in c.text)
  }

  predicate AllReadable(cells: seq<Cell>) {
    forall i :: 0 <= i < |cells| ==> Readable(cells[i])
  }

  /** A CSV reader for rows without escaped quotes: a field that starts with
      a quote runs to the next quote, which must end the row or be followed
      by a comma; any other field runs to the next comma. */
  function ParseRow(s: string): Option<seq<string>>
    decreases |s|
  {
    if |s| > 0 && s[0] == '"' then
      var close := IndexOf(s[1..], '"');
      if close < 0 then None
      else
        var field := s[1..close + 1];
        var rest := s[close + 2..];
        if |rest| == 0 then Some([field])
        else if rest[0] != ',' then None
        else match ParseRow(rest[1..])
          case None => None
          case Some(fs) => Some([field] + fs)
    else
      var comma := IndexOf(s, ',');
      if comma < 0 then Some([s])
      else match ParseRow(s[comma + 1..])
        case None => None
        case Some(fs) => Some([s[..comma]] + fs)
  }

  /** What the reader makes of `tail` once one field has been read. */
  function ThenRead(field: string, tail: string): Option<seq<string>>
    decreases |tail|
  {
    if |tail| == 0 then Some([field])
    else if tail[0] != ',' then None
    else match ParseRow(tail[1..])
      case None => None
      case Some(fs) => Some([field] + fs)
  }

  lemma ParseQuoted(t: string, tail: string)
    requires '"' !in t
    ensures ParseRow("\"" + t + "\"" + tail) == ThenRead(t, tail)
  {
    var s := "\"" + t + "\"" + tail;
    assert s[1..] == t + ['"'] + tail;
    IndexOfAfter(t, '"', tail);
    assert s[1..|t| + 1] == t && s[|t| + 2..] == tail;
  }

  lemma ParseBare(t: string, tail: string)
    requires ',' !in t && '"' !in t
    requires |tail| == 0 || tail[0] == ','
    ensures ParseRow(t + tail) == ThenRead(t, tail)
  {
    var s := t + tail;
    assert !(|s| > 0 && s[0] == '"') by {
      if |t| > 0 { assert s[0] == t[0]; }
    }
    if |tail| == 0 {
      assert s == t;
      IndexOfSpec(t, ',');
    } else {
      assert s == t + [','] + tail[1..];
      IndexOfAfter(t, ',', tail[1..]);
      assert s[..|t|] == t && s[|t| + 1..] == tail[1..];
    }
  }

  lemma TextsCons(cells: seq<Cell>)
    requires |cells| > 0
    ensures Texts(cells) == [cells[0].text] + Texts(cells[1..])
  {
    var l, r := Texts(cells), [cells[0].text] + Texts(cells[1..]);
    assert |l| == |r|;
    forall i | 0 <= i < |l| ensures l[i] == r[i] {
      if i > 0 { assert cells[1..][i - 1] == cells[i]; }
    }
  }

  /** A readable cell followed by the end of the row or a comma reads back
      as its text. */
  lemma ReadCell(c: Cell, tail: string)
    requires Readable(c)
    requires |tail| == 0 || tail[0] == ','
    ensures ParseRow(Encode(c) + tail) == ThenRead(c.text, tail)
  {
    match c
    case Quoted(t) =>
      ParseQuoted(t, tail);
    case Bare(t) =>
      ParseBare(t, tail);
  }

  /** Reading a row written from readable cells gives back their texts. */
  lemma {:induction false} ParseRowOfRow(cells: seq<Cell>)
    requires |cells| > 0 && AllReadable(cells)
    ensures ParseRow(Row(cells)) == Some(Texts(cells))
  {
    if |cells| == 1 {
      ParseRowOfOne(cells);
    } else {
      assert AllReadable(cells[1..]) by {
        forall i | 0 <= i < |cells[1..]| ensures Readable(cells[1..][i]) {
          assert cells[1..][i] == cells[i + 1];
        }
      }
      ParseRowOfRow(cells[1..]);
      ParseRowCons(cells);
    }
  }

  lemma ParseRowOfOne(cells: seq<Cell>)
    requires |cells| == 1 && Readable(cells[0])
    ensures ParseRow(Row(cells)) == Some(Texts(cells))
  {
    var c := cells[0];
    assert Row(cells) == Encode(c) + "";
    ReadCell(c, "");
    assert Texts(cells) == [c.text];
  }

  /** One more readable cell in front of a row that reads back. */
  lemma ParseRowCons(cells: seq<Cell>)
    requires |cells| > 1 && Readable(cells[0])
    requires ParseRow(Row(cells[1..])) == Some(Texts(cells[1..]))
    ensures ParseRow(Row(cells)) == Some(Texts(cells))
  {
    var c := cells[0];
    var rest := Row(cells[1..]);
    var tail := "," + rest;
    assert Row(cells) == Encode(c) + tail;
    ReadCell(c, tail);
    assert tail[1..] == rest;
    TextsCons(cells);
  }

  // ---------------------------------------------------------------------
  // Tables: rows joined with line breaks
  // ---------------------------------------------------------------------

  function Rows(table: seq<seq<Cell>>): (rs: seq<string>)
    ensures |rs| == |table|
    ensures forall i :: 0 <= i < |table| ==> rs[i] == Row(table[i])
  {
    seq(|table|, i requires 0 <= i < |table| => Row(table[i]))
  }

  /** `lines.join('\n')`. */
  function WriteCsv(table: seq<seq<Cell>>): string {
    Join(Rows(table), '\n')
  }

  /** What a reader gets from a table: the texts of its cells. */
  function RecordsOf(table: seq<seq<Cell>>): (rs: seq<seq<string>>)
    ensures |rs| == |table|
    ensures forall i :: 0 <= i < |table| ==> rs[i] == Texts(table[i])
  {
    seq(|table|, i requires 0 <= i < |table| => Texts(table[i]))
  }

  predicate ReadableTable(table: seq<seq<Cell>>) {
    forall i :: 0 <= i < |table| ==> |table[i]| > 0 && AllReadable(table[i])
  }

  /** A reader: split at line breaks, then read each line as a row. */
  function ReadCsv(text: string): Option<seq<seq<string>>> {
    ReadLines(Split(text, '\n'))
  }

  function ReadLines(lines: seq<string>): Option<seq<seq<string>>> {
    if |lines| == 0 then Some([])
    else match (ParseRow(lines[0]), ReadLines(lines[1..]))
      case (Some(r), Some(rs)) => Some([r] + rs)
      case _ => None
  }

  lemma {:induction false} RowSingleLine(cells: seq<Cell>)
    requires AllReadable(cells)
    ensures '\n' !in Row(cells)
  {
    if |cells| > 1 {
      RowSingleLine(cells[1..]);
    }
  }

  lemma {:induction false} ReadRows(table: seq<seq<Cell>>)
    requires ReadableTable(table)
    ensures ReadLines(Rows(table)) == Some(RecordsOf(table))
  {
    if |table| > 0 {
      assert ReadableTable(table[1..]) by {
        forall i | 0 <= i < |table[1..]| ensures |table[1..][i]| > 0 && AllReadable(table[1..][i]) {
          assert table[1..][i] == table[i + 1];
        }
      }
      ReadRows(table[1..]);
      ReadRowsCons(table);
    }
  }

  /** One more readable row in front of rows that read back. */
  lemma ReadRowsCons(table: seq<seq<Cell>>)
    requires |table| > 0 && |table[0]| > 0 && AllReadable(table[0])
    requires ReadLines(Rows(table[1..])) == Some(RecordsOf(table[1..]))
    ensures ReadLines(Rows(table)) == Some(RecordsOf(table))
  {
    var lines := Rows(table);
    assert ParseRow(lines[0]) == Some(Texts(table[0])) by {
      ParseRowOfRow(table[0]);
    }
    assert lines[1..] == Rows(table[1..]);
    RecordsCons(table);
  }

  lemma RecordsCons(table: seq<seq<Cell>>)
    requires |table| > 0
    ensures RecordsOf(table) == [Texts(table[0])] + RecordsOf(table[1..])
  {
    var l, r := RecordsOf(table), [Texts(table[0])] + RecordsOf(table[1..]);
    assert |l| == |r|;
    forall i | 0 <= i < |l| ensures l[i] == r[i] {
      if i > 0 { assert table[1..][i - 1] == table[i]; }
    }
  }

  /** A reader gets back every record of a table written from readable
      cells. */
  lemma ReadWrite(table: seq<seq<Cell>>)
    requires |table| > 0 && ReadableTable(table)
    ensures ReadCsv(WriteCsv(table)) == Some(RecordsOf(table))
  {
    forall i | 0 <= i < |table| ensures '\n' !in Rows(table)[i] {
      RowSingleLine(table[i]);
    }
    SplitJoin(Rows(table), '\n');
    ReadRows(table);
  }

  // ---------------------------------------------------------------------
  // Helpers for the three exports
  // ---------------------------------------------------------------------

  function BareCells(ts: seq<string>): (cs: seq<Cell>)
    ensures |cs| == |ts| && Texts(cs) == ts
  {
    seq(|ts|, i requires 0 <= i < |ts| => Bare(ts[i]))
  }

  /** A value a reader can take back from between quotes. */
  predicate QuotedSafe(t: string) {
    '"' !in t && '\n' !in t
  }

  /** A value a reader can take back bare: no quote, line break or comma,
      such as the headers and the numbers. */
  predicate BareSafe(t: string) {
    '"' !in t && '\n' !in t && ',' !in t
  }

  /** The characters a bare value must not hold. */
  predicate Special(c: char) {
    c == '"' || c == '\n' || c == ','
  }

  /** No string of `ts` holds `c`. */
  predicate Lacks(c: char, ts: seq<string>) {
    forall i :: 0 <= i < |ts| ==> c !in ts[i]
  }

  lemma AllBareSafe(ts: seq<string>)
    requires Lacks('"', ts) && Lacks('\n', ts) && Lacks(',', ts)
    ensures forall i :: 0 <= i < |ts| ==> BareSafe(ts[i])
  {
  }

  /** The `j`-th field of every record. */
  function Column(recs: seq<seq<string>>, j: nat): (col: seq<string>)
    requires forall i :: 0 <= i < |recs| ==> j < |recs[i]|
    ensures |col| == |recs|
  {
    seq(|recs|, i requires 0 <= i < |recs| => recs[i][j])
  }

  /** All files of all groups, group by group. */
  function GroupFiles(groups: seq<DuplicateGroup>): seq<string> {
    if |groups| == 0 then [] else groups[0].files + GroupFiles(groups[1..])
  }

  /** How many files the groups before the `gi`-th hold: the records of
      group `gi` follow that many. */
  function FilesBefore(groups: seq<DuplicateGroup>, gi: nat): nat
    requires gi <= |groups|
  {
    if gi == 0 then 0 else |groups[0].files| + FilesBefore(groups[1..], gi - 1)
  }

  // ---------------------------------------------------------------------
  // exportLargeFiles
  // ---------------------------------------------------------------------

  const LargeFilesHeader: seq<string> := ["Path", "Size (Bytes)", "Size (Formatted)"]

  lemma LargeFilesHeaderLacks(c: char)
    requires Special(c)
    ensures Lacks(c, LargeFilesHeader)
  {
  }

  lemma LargeFilesHeaderBareSafe()
    ensures forall i :: 0 <= i < |LargeFilesHeader| ==> BareSafe(LargeFilesHeader[i])
  {
    LargeFilesHeaderLacks('"');
    LargeFilesHeaderLacks('\n');
    LargeFilesHeaderLacks(',');
    AllBareSafe(LargeFilesHeader);
  }

  function LargeFileRow(f: LargeFile): seq<Cell> {
    [Quoted(f.path), Bare(NatToString(f.size)), Quoted(f.sizeFormatted)]
  }

  function LargeFilesTable(files: seq<LargeFile>): (t: seq<seq<Cell>>)
    ensures |t| == |files| + 1
  {
    [BareCells(LargeFilesHeader)] + seq(|files|, i requires 0 <= i < |files| => LargeFileRow(files[i]))
  }

  /** `exportLargeFiles`. */
  function ExportLargeFiles(files: seq<LargeFile>): string {
    WriteCsv(LargeFilesTable(files))
  }

  /** Reading a large-files export back: the header, then one record of
      path, decimal size and formatted size per file. */
  function ParseLargeFiles(text: string): Option<seq<LargeFile>> {
    match ReadCsv(text)
    case None => None
    case Some(recs) =>
      if |recs| == 0 || recs[0] != LargeFilesHeader then None
      else DecodeLargeFiles(recs[1..])
  }

  function DecodeLargeFiles(recs: seq<seq<string>>): Option<seq<LargeFile>> {
    if |recs| == 0 then Some([])
    else
      var r := recs[0];
      if |r| != 3 || !(forall i :: 0 <= i < |r[1]| ==> IsDigit(r[1][i])) then None
      else match DecodeLargeFiles(recs[1..])
        case None => None
        case Some(fs) => Some([LargeFile(r[0], ParseNat(r[1]), r[2])] + fs)
  }

  predicate LargeFilesReadable(files: seq<LargeFile>) {
    forall i :: 0 <= i < |files| ==> QuotedSafe(files[i].path) && QuotedSafe(files[i].sizeFormatted)
  }

  lemma {:induction false} DecodeLargeFileRecords(files: seq<LargeFile>)
    ensures DecodeLargeFiles(seq(|files|, i requires 0 <= i < |files| => Texts(LargeFileRow(files[i])))) == Some(files)
  {
    var recs := seq(|files|, i requires 0 <= i < |files| => Texts(LargeFileRow(files[i])));
    if |files| > 0 {
      var f := files[0];
      assert recs[0] == [f.path, NatToString(f.size), f.sizeFormatted];
      ParseNatToString(f.size);
      DecodeLargeFileRecords(files[1..]);
      assert recs[1..] == seq(|files[1..]|, i requires 0 <= i < |files[1..]| => Texts(LargeFileRow(files[1..][i])));
      assert files == [f] + files[1..];
    }
  }

  lemma HeaderReadable(ts: seq<string>)
    requires forall i :: 0 <= i < |ts| ==> BareSafe(ts[i])
    ensures AllReadable(BareCells(ts))
  {
  }

  lemma LargeFilesTableReadable(files: seq<LargeFile>)
    requires LargeFilesReadable(files)
    ensures ReadableTable(LargeFilesTable(files))
  {
    var t := LargeFilesTable(files);
    LargeFilesHeaderBareSafe();
    HeaderReadable(LargeFilesHeader);
    forall i | 0 <= i < |t| ensures |t[i]| > 0 && AllReadable(t[i]) {
      if i > 0 {
        NumberBareSafe(files[i - 1].size);
        assert t[i] == LargeFileRow(files[i - 1]);
      }
    }
  }

  lemma LargeFilesRecords(files: seq<LargeFile>)
    ensures RecordsOf(LargeFilesTable(files))
         == [LargeFilesHeader] + seq(|files|, i requires 0 <= i < |files| => Texts(LargeFileRow(files[i])))
  {
  }

  /** A reader gets every large file back from the export: path, size and
      formatted size, in order. */
  lemma LargeFilesRoundTrip(files: seq<LargeFile>)
    requires LargeFilesReadable(files)
    ensures ParseLargeFiles(ExportLargeFiles(files)) == Some(files)
  {
    var t := LargeFilesTable(files);
    LargeFilesTableReadable(files);
    ReadWrite(t);
    LargeFilesRecords(files);
    DecodeLargeFileRecords(files);
  }

  // ---------------------------------------------------------------------
  // exportDuplicates
  // ---------------------------------------------------------------------

  const DuplicatesHeader: seq<string> :=
    ["Group", "Path", "Size (Bytes)", "Size (Formatted)", "Files in Group", "Wasted Space"]

  /** The rows of one group, numbered from one. */
  function DuplicatesGroupRows(g: DuplicateGroup, number: nat): (t: seq<seq<Cell>>)
    ensures |t| == |g.files|
  {
    seq(|g.files|, j requires 0 <= j < |g.files| => DuplicatesRow(g, number, j))
  }

  /** The row of the `j`-th file of group `number`. */
  function DuplicatesRow(g: DuplicateGroup, number: nat, j: nat): seq<Cell>
    requires j < |g.files|
  {
    [Bare(NatToString(number)), Quoted(g.files[j]), Bare(NatToString(g.size)),
     Quoted(g.sizeFormatted), Bare(NatToString(|g.files|)), Quoted(g.totalWastedSpaceFormatted)]
  }

  function DuplicatesRows(groups: seq<DuplicateGroup>, number: nat): (t: seq<seq<Cell>>)
    ensures |t| == |GroupFiles(groups)|
  {
    if |groups| == 0 then []
    else DuplicatesGroupRows(groups[0], number) + DuplicatesRows(groups[1..], number + 1)
  }

  /** The `j`-th file of group `gi` has its row after the files of the
      groups before, numbered `gi` places after the first group. */
  lemma {:induction false} DuplicatesRowsAt(groups: seq<DuplicateGroup>, number: nat, gi: nat, j: nat)
    requires gi < |groups| && j < |groups[gi].files|
    ensures FilesBefore(groups, gi) + j < |GroupFiles(groups)|
    ensures DuplicatesRows(groups, number)[FilesBefore(groups, gi) + j] == DuplicatesGroupRows(groups[gi], number + gi)[j]
  {
    if gi == 0 {
      DuplicatesRowsFirst(groups, number, j);
    } else {
      var k := FilesBefore(groups[1..], gi - 1) + j;
      assert FilesBefore(groups, gi) + j == |groups[0].files| + k;
      DuplicatesRowsAt(groups[1..], number + 1, gi - 1, j);
      assert groups[1..][gi - 1] == groups[gi];
      DuplicatesRowsShift(groups, number, k);
    }
  }

  /** The first group's rows come first. */
  lemma DuplicatesRowsFirst(groups: seq<DuplicateGroup>, number: nat, j: nat)
    requires |groups| > 0 && j < |groups[0].files|
    ensures j < |DuplicatesRows(groups, number)| && DuplicatesRows(groups, number)[j] == DuplicatesGroupRows(groups[0], number)[j]
  {
  }

  /** Past the first group's rows come the rows of the rest. */
  lemma DuplicatesRowsShift(groups: seq<DuplicateGroup>, number: nat, k: nat)
    requires |groups| > 0 && k < |DuplicatesRows(groups[1..], number + 1)|
    ensures |groups[0].files| + k < |DuplicatesRows(groups, number)|
    ensures DuplicatesRows(groups, number)[|groups[0].files| + k] == DuplicatesRows(groups[1..], number + 1)[k]
  {
  }

  /** The record read back for the `j`-th file of group `gi`. */
  lemma DuplicateRecordAt(groups: seq<DuplicateGroup>, gi: nat, j: nat)
    requires gi < |groups| && j < |groups[gi].files|
    ensures FilesBefore(groups, gi) + j < |GroupFiles(groups)|
    ensures RecordsOf(DuplicatesRows(groups, 1))[FilesBefore(groups, gi) + j]
         == [NatToString(gi + 1), groups[gi].files[j], NatToString(groups[gi].size), groups[gi].sizeFormatted,
             NatToString(|groups[gi].files|), groups[gi].totalWastedSpaceFormatted]
  {
    DuplicatesRowsAt(groups, 1, gi, j);
    SixTexts(DuplicatesGroupRows(groups[gi], 1 + gi)[j]);
  }

  /** `exportDuplicates`. */
  function ExportDuplicates(groups: seq<DuplicateGroup>): string {
    WriteCsv([BareCells(DuplicatesHeader)] + DuplicatesRows(groups, 1))
  }

  predicate GroupReadable(g: DuplicateGroup) {
    QuotedSafe(g.sizeFormatted) && QuotedSafe(g.totalWastedSpaceFormatted) &&
    forall j :: 0 <= j < |g.files| ==> QuotedSafe(g.files[j])
  }

  predicate GroupsReadable(groups: seq<DuplicateGroup>) {
    forall i :: 0 <= i < |groups| ==> GroupReadable(groups[i])
  }

  lemma {:induction false} DuplicatesRowsReadable(groups: seq<DuplicateGroup>, number: nat)
    requires GroupsReadable(groups)
    ensures ReadableTable(DuplicatesRows(groups, number))
  {
    if |groups| > 0 {
      var g := groups[0];
      var t := DuplicatesGroupRows(g, number);
      NumberBareSafe(number);
      NumberBareSafe(g.size);
      NumberBareSafe(|g.files|);
      assert ReadableTable(t);
      DuplicatesRowsReadable(groups[1..], number + 1);
    }
  }

  /** The records of the group rows carry the group's files in the path
      column. */
  lemma {:induction false} DuplicatesRowsPaths(groups: seq<DuplicateGroup>, number: nat)
    ensures forall i :: 0 <= i < |DuplicatesRows(groups, number)| ==> |DuplicatesRows(groups, number)[i]| == 6
    ensures Column(RecordsOf(DuplicatesRows(groups, number)), 1) == GroupFiles(groups)
  {
    if |groups| > 0 {
      DuplicatesRowsPaths(groups[1..], number + 1);
      var head := DuplicatesGroupRows(groups[0], number);
      var tail := DuplicatesRows(groups[1..], number + 1);
      var col := Column(RecordsOf(head + tail), 1);
      assert col[..|head|] == groups[0].files;
      assert col[|head|..] == Column(RecordsOf(tail), 1);
      assert col == col[..|head|] + col[|head|..];
    }
  }

  lemma DuplicatesHeaderLacks(c: char)
    requires Special(c)
    ensures Lacks(c, DuplicatesHeader)
  {
  }

  lemma DuplicatesHeaderBareSafe()
    ensures forall i :: 0 <= i < |DuplicatesHeader| ==> BareSafe(DuplicatesHeader[i])
  {
    DuplicatesHeaderLacks('"');
    DuplicatesHeaderLacks('\n');
    DuplicatesHeaderLacks(',');
    AllBareSafe(DuplicatesHeader);
  }

  lemma WithHeader(header: seq<string>, body: seq<seq<Cell>>)
    requires |header| > 0 && forall i :: 0 <= i < |header| ==> BareSafe(header[i])
    requires ReadableTable(body)
    ensures ReadableTable([BareCells(header)] + body)
    ensures RecordsOf([BareCells(header)] + body) == [header] + RecordsOf(body)
  {
    HeaderReadable(header);
    var t := [BareCells(header)] + body;
    forall i | 0 <= i < |t| ensures |t[i]| > 0 && AllReadable(t[i]) {
      if i > 0 { assert t[i] == body[i - 1]; }
    }
  }

  /** A reader gets the header and one six-field record per duplicate file,
      whose path column lists every group's files, group by group; each
      record holds its group's number and figures (`DuplicateRecordIn`). */
  lemma ExportDuplicatesRead(groups: seq<DuplicateGroup>)
    requires GroupsReadable(groups)
    ensures var recs := ReadCsv(ExportDuplicates(groups));
      && recs.Some?
      && |recs.value| == 1 + |GroupFiles(groups)|
      && recs.value[0] == DuplicatesHeader
      && (forall i :: 0 <= i < |recs.value| ==> |recs.value[i]| == 6)
      && Column(recs.value[1..], 1) == GroupFiles(groups)
      && (forall gi, j :: 0 <= gi < |groups| && 0 <= j < |groups[gi].files| ==> DuplicateRecordIn(groups, recs.value, gi, j))
  {
    var body := DuplicatesRows(groups, 1);
    var recs := [DuplicatesHeader] + RecordsOf(body);
    assert ReadCsv(ExportDuplicates(groups)) == Some(recs) by {
      DuplicatesRowsReadable(groups, 1);
      DuplicatesHeaderBareSafe();
      WithHeader(DuplicatesHeader, body);
      ReadWrite([BareCells(DuplicatesHeader)] + body);
    }
    assert recs[1..] == RecordsOf(body);
    DuplicatesRowsPaths(groups, 1);
    DuplicateRecordsIn(groups);
  }

  lemma DuplicateRecordsIn(groups: seq<DuplicateGroup>)
    ensures forall gi, j :: 0 <= gi < |groups| && 0 <= j < |groups[gi].files| ==>
      DuplicateRecordIn(groups, [DuplicatesHeader] + RecordsOf(DuplicatesRows(groups, 1)), gi, j)
  {
    var body := DuplicatesRows(groups, 1);
    var recs := [DuplicatesHeader] + RecordsOf(body);
    forall gi, j | 0 <= gi < |groups| && 0 <= j < |groups[gi].files| ensures DuplicateRecordIn(groups, recs, gi, j) {
      var k := FilesBefore(groups, gi) + j;
      DuplicateRecordAt(groups, gi, j);
      assert recs[1 + k] == RecordsOf(body)[k];
    }
  }

  /** The record of the `j`-th file of the `gi`-th group (both from zero)
      comes after the header and the files of the groups before it, and
      holds the group's number counted from one, the file, the group's size
      in bytes and formatted, the number of files in the group and its
      formatted wasted space. */
  predicate DuplicateRecordIn(groups: seq<DuplicateGroup>, recs: seq<seq<string>>, gi: nat, j: nat)
    requires gi < |groups| && j < |groups[gi].files|
  {
    var g := groups[gi];
    && FilesBefore(groups, gi) + j < |GroupFiles(groups)|
    && 1 + FilesBefore(groups, gi) + j < |recs|
    && recs[1 + FilesBefore(groups, gi) + j]
       == [NatToString(gi + 1), g.files[j], NatToString(g.size), g.sizeFormatted, NatToString(|g.files|), g.totalWastedSpaceFormatted]
  }

  // ---------------------------------------------------------------------
  // exportAnalysis
  // ---------------------------------------------------------------------

  const AnalysisHeader: seq<string> := ["Type", "Path", "Size (Bytes)", "Size (Formatted)", "Count", "Details"]

  function SummaryRow(r: AnalysisResult): seq<Cell> {
    [Bare("Summary"), Bare(r.path), Bare(NatToString(r.totalSizeBytes)), Bare(r.totalSizeMB + "MB"),
     Bare(NatToString(r.files)), Bare("Folders: " + NatToString(r.folders))]
  }

  function TypeRows(types: Counts, cs: seq<Category>): (t: seq<seq<Cell>>)
    ensures |t| == |cs|
  {
    seq(|cs|, i requires 0 <= i < |cs| => TypeRow(types, cs[i]))
  }

  function TypeRow(types: Counts, c: Category): seq<Cell> {
    [Bare("FileType"), Bare(CategoryKey(c)), Bare("-"), Bare("-"), Bare(NatToString(types.Get(c))), Bare("-")]
  }

  function LargeFileRows(files: seq<LargeFile>): (t: seq<seq<Cell>>)
    ensures |t| == |files|
  {
    seq(|files|, i requires 0 <= i < |files| => LargeFileEntry(files[i]))
  }

  function LargeFileEntry(f: LargeFile): seq<Cell> {
    [Bare("LargeFile"), Quoted(f.path), Bare(NatToString(f.size)), Quoted(f.sizeFormatted), Bare("1"), Bare("-")]
  }

  /** The details cell of the `j`-th file of group `number`: the first file
      carries the group's totals, the others are marked as duplicates. */
  function GroupDetails(g: DuplicateGroup, number: nat, j: nat): string {
    if j == 0
    then "Group " + NatToString(number) + ", Total files: " + NatToString(|g.files|) +
         ", Wasted space: " + g.totalWastedSpaceFormatted
    else "Group " + NatToString(number) + " (duplicate)"
  }

  function GroupRows(g: DuplicateGroup, number: nat): (t: seq<seq<Cell>>)
    ensures |t| == |g.files|
  {
    seq(|g.files|, j requires 0 <= j < |g.files| => GroupRow(g, number, j))
  }

  function GroupRow(g: DuplicateGroup, number: nat, j: nat): seq<Cell>
    requires j < |g.files|
  {
    [Bare("Duplicate"), Quoted(g.files[j]), Bare(NatToString(g.size)), Quoted(g.sizeFormatted),
     Bare("1"), Quoted(GroupDetails(g, number, j))]
  }

  function AllGroupRows(groups: seq<DuplicateGroup>, number: nat): (t: seq<seq<Cell>>)
    ensures |t| == |GroupFiles(groups)|
  {
    if |groups| == 0 then []
    else GroupRows(groups[0], number) + AllGroupRows(groups[1..], number + 1)
  }

  /** The `j`-th file of group `gi` has its row after the files of the
      groups before, with the details of group `number + gi`. */
  lemma {:induction false} AllGroupRowsAt(groups: seq<DuplicateGroup>, number: nat, gi: nat, j: nat)
    requires gi < |groups| && j < |groups[gi].files|
    ensures FilesBefore(groups, gi) + j < |GroupFiles(groups)|
    ensures AllGroupRows(groups, number)[FilesBefore(groups, gi) + j] == GroupRows(groups[gi], number + gi)[j]
  {
    if gi == 0 {
      AllGroupRowsFirst(groups, number, j);
    } else {
      var k := FilesBefore(groups[1..], gi - 1) + j;
      assert FilesBefore(groups, gi) + j == |groups[0].files| + k;
      AllGroupRowsAt(groups[1..], number + 1, gi - 1, j);
      assert groups[1..][gi - 1] == groups[gi];
      AllGroupRowsShift(groups, number, k);
    }
  }

  /** The first group's rows come first. */
  lemma AllGroupRowsFirst(groups: seq<DuplicateGroup>, number: nat, j: nat)
    requires |groups| > 0 && j < |groups[0].files|
    ensures j < |AllGroupRows(groups, number)| && AllGroupRows(groups, number)[j] == GroupRows(groups[0], number)[j]
  {
  }

  /** Past the first group's rows come the rows of the rest. */
  lemma AllGroupRowsShift(groups: seq<DuplicateGroup>, number: nat, k: nat)
    requires |groups| > 0 && k < |AllGroupRows(groups[1..], number + 1)|
    ensures |groups[0].files| + k < |AllGroupRows(groups, number)|
    ensures AllGroupRows(groups, number)[|groups[0].files| + k] == AllGroupRows(groups[1..], number + 1)[k]
  {
  }

  function LargeOf(r: AnalysisResult): seq<LargeFile> {
    if r.largeFiles.Some? then r.largeFiles.value else []
  }

  function GroupsOf(r: AnalysisResult): seq<DuplicateGroup> {
    if r.duplicateGroups.Some? then r.duplicateGroups.value else []
  }

  function AnalysisBody(r: AnalysisResult): seq<seq<Cell>> {
    [SummaryRow(r)] +
    TypeRows(r.types, NonZeroCategories(r.types)) +
    (if r.largeFiles.Some? && |r.largeFiles.value| > 0 then LargeFileRows(r.largeFiles.value) else []) +
    (if r.duplicateGroups.Some? && |r.duplicateGroups.value| > 0 then AllGroupRows(r.duplicateGroups.value, 1) else [])
  }

  /** `exportAnalysis`. */
  function ExportAnalysis(r: AnalysisResult): string {
    WriteCsv([BareCells(AnalysisHeader)] + AnalysisBody(r))
  }

  lemma BareSafeConcat(a: string, b: string)
    requires BareSafe(a) && BareSafe(b)
    ensures BareSafe(a + b)
  {
  }

  lemma BareSafeReadable(t: string)
    requires BareSafe(t)
    ensures Readable(Bare(t)) && QuotedSafe(t)
  {
  }

  /** A number printed in decimal can stand bare. */
  lemma NumberBareSafe(n: nat)
    ensures BareSafe(NatToString(n))
  {
    var t := NatToString(n);
    assert forall i :: 0 <= i < |t| ==> IsDigit(t[i]);
  }

  lemma SummaryLiteralsLack(c: char)
    requires Special(c)
    ensures c !in "Summary" && c !in "MB" && c !in "Folders: " && c !in "FileType"
  {
  }

  lemma RowLiteralsLack(c: char)
    requires Special(c)
    ensures c !in "-" && c !in "LargeFile" && c !in "1" && c !in "Duplicate"
  {
  }

  /** The fixed texts of the analysis rows can stand bare. */
  lemma RowLiteralsBareSafe()
    ensures BareSafe("Summary") && BareSafe("MB") && BareSafe("Folders: ") && BareSafe("FileType")
    ensures BareSafe("-") && BareSafe("LargeFile") && BareSafe("1") && BareSafe("Duplicate")
  {
    SummaryLiteralsLack('"');
    SummaryLiteralsLack('\n');
    SummaryLiteralsLack(',');
    RowLiteralsLack('"');
    RowLiteralsLack('\n');
    RowLiteralsLack(',');
  }

  lemma DetailLiteralsLack(c: char)
    requires c == '"' || c == '\n'
    ensures c !in "Group " && c !in ", Total files: " && c !in ", Wasted space: " && c !in " (duplicate)"
  {
  }

  /** The fixed texts of the duplicate details can stand between quotes. */
  lemma DetailLiteralsSafe()
    ensures QuotedSafe("Group ") && QuotedSafe(", Total files: ")
    ensures QuotedSafe(", Wasted space: ") && QuotedSafe(" (duplicate)")
  {
    DetailLiteralsLack('"');
    DetailLiteralsLack('\n');
  }

  lemma CategoryKeyBareSafe(c: Category)
    ensures BareSafe(CategoryKey(c))
  {
  }

  lemma AnalysisHeaderLacks(c: char)
    requires Special(c)
    ensures Lacks(c, AnalysisHeader)
  {
  }

  lemma AnalysisHeaderBareSafe()
    ensures forall i :: 0 <= i < |AnalysisHeader| ==> BareSafe(AnalysisHeader[i])
  {
    AnalysisHeaderLacks('"');
    AnalysisHeaderLacks('\n');
    AnalysisHeaderLacks(',');
    AllBareSafe(AnalysisHeader);
  }

  /** The analysis export can be read back when the root path and the
      megabyte text can stand bare and every path and formatted size can
      stand between quotes. */
  predicate AnalysisReadable(r: AnalysisResult) {
    BareSafe(r.path) && BareSafe(r.totalSizeMB) && LargeFilesReadable(LargeOf(r)) && GroupsReadable(GroupsOf(r))
  }

  lemma SummaryRowReadable(r: AnalysisResult)
    requires BareSafe(r.path) && BareSafe(r.totalSizeMB)
    ensures AllReadable(SummaryRow(r))
  {
    RowLiteralsBareSafe();
    NumberBareSafe(r.totalSizeBytes);
    NumberBareSafe(r.files);
    NumberBareSafe(r.folders);
    BareSafeConcat(r.totalSizeMB, "MB");
    BareSafeConcat("Folders: ", NatToString(r.folders));
    var row := SummaryRow(r);
    forall i | 0 <= i < |row| ensures Readable(row[i]) {
      BareSafeReadable(row[i].text);
    }
  }

  lemma TypeRowsReadable(types: Counts, cs: seq<Category>)
    ensures ReadableTable(TypeRows(types, cs))
  {
    RowLiteralsBareSafe();
    var t := TypeRows(types, cs);
    forall i | 0 <= i < |t| ensures AllReadable(t[i]) {
      CategoryKeyBareSafe(cs[i]);
      NumberBareSafe(types.Get(cs[i]));
      forall k | 0 <= k < |t[i]| ensures Readable(t[i][k]) {
        BareSafeReadable(t[i][k].text);
      }
    }
  }

  lemma LargeFileRowsReadable(files: seq<LargeFile>)
    requires LargeFilesReadable(files)
    ensures ReadableTable(LargeFileRows(files))
  {
    RowLiteralsBareSafe();
    var t := LargeFileRows(files);
    forall i | 0 <= i < |t| ensures AllReadable(t[i]) {
      NumberBareSafe(files[i].size);
      BareSafeReadable("LargeFile");
      BareSafeReadable("1");
      BareSafeReadable("-");
      BareSafeReadable(NatToString(files[i].size));
    }
  }

  lemma QuotedSafeConcat(a: string, b: string)
    requires QuotedSafe(a) && QuotedSafe(b)
    ensures QuotedSafe(a + b)
  {
  }

  lemma DetailsSafe(g: DuplicateGroup, number: nat, j: nat)
    requires GroupReadable(g)
    ensures QuotedSafe(GroupDetails(g, number, j))
  {
    DetailLiteralsSafe();
    NumberBareSafe(number);
    NumberBareSafe(|g.files|);
    BareSafeReadable(NatToString(number));
    BareSafeReadable(NatToString(|g.files|));
    var head := "Group " + NatToString(number);
    QuotedSafeConcat("Group ", NatToString(number));
    if j == 0 {
      QuotedSafeConcat(head, ", Total files: ");
      QuotedSafeConcat(head + ", Total files: ", NatToString(|g.files|));
      QuotedSafeConcat(head + ", Total files: " + NatToString(|g.files|), ", Wasted space: ");
      QuotedSafeConcat(head + ", Total files: " + NatToString(|g.files|) + ", Wasted space: ", g.totalWastedSpaceFormatted);
    } else {
      QuotedSafeConcat(head, " (duplicate)");
    }
  }

  lemma {:induction false} AllGroupRowsReadable(groups: seq<DuplicateGroup>, number: nat)
    requires GroupsReadable(groups)
    ensures ReadableTable(AllGroupRows(groups, number))
  {
    if |groups| > 0 {
      var g := groups[0];
      var t := GroupRows(g, number);
      RowLiteralsBareSafe();
      NumberBareSafe(g.size);
      BareSafeReadable("Duplicate");
      BareSafeReadable("1");
      BareSafeReadable(NatToString(g.size));
      forall j | 0 <= j < |t| ensures AllReadable(t[j]) {
        DetailsSafe(g, number, j);
      }
      AllGroupRowsReadable(groups[1..], number + 1);
    }
  }

  /** `n` copies of `t`. */
  function Repeat(t: string, n: nat): (r: seq<string>)
    ensures |r| == n && forall i :: 0 <= i < n ==> r[i] == t
  {
    seq(n, i requires 0 <= i < n => t)
  }

  function CategoryKeys(cs: seq<Category>): (ks: seq<string>)
    ensures |ks| == |cs| && forall i :: 0 <= i < |cs| ==> ks[i] == CategoryKey(cs[i])
  {
    seq(|cs|, i requires 0 <= i < |cs| => CategoryKey(cs[i]))
  }

  function LargePaths(files: seq<LargeFile>): (ps: seq<string>)
    ensures |ps| == |files| && forall i :: 0 <= i < |files| ==> ps[i] == files[i].path
  {
    seq(|files|, i requires 0 <= i < |files| => files[i].path)
  }

  /** Every row of `t` has six cells. */
  predicate SixWide(t: seq<seq<Cell>>) {
    forall i :: 0 <= i < |t| ==> |t[i]| == 6
  }

  lemma ColumnConcat(a: seq<seq<Cell>>, b: seq<seq<Cell>>, j: nat)
    requires SixWide(a) && SixWide(b) && j < 6
    ensures SixWide(a + b)
    ensures Column(RecordsOf(a + b), j) == Column(RecordsOf(a), j) + Column(RecordsOf(b), j)
  {
    assert forall i :: 0 <= i < |a + b| ==> (a + b)[i] == if i < |a| then a[i] else b[i - |a|];
  }

  lemma {:induction false} AllGroupRowsColumns(groups: seq<DuplicateGroup>, number: nat)
    ensures SixWide(AllGroupRows(groups, number))
    ensures Column(RecordsOf(AllGroupRows(groups, number)), 0) == Repeat("Duplicate", |GroupFiles(groups)|)
    ensures Column(RecordsOf(AllGroupRows(groups, number)), 1) == GroupFiles(groups)
  {
    if |groups| > 0 {
      AllGroupRowsColumns(groups[1..], number + 1);
      var head := GroupRows(groups[0], number);
      var tail := AllGroupRows(groups[1..], number + 1);
      ColumnConcat(head, tail, 0);
      ColumnConcat(head, tail, 1);
      assert Column(RecordsOf(head), 1) == groups[0].files;
      assert Column(RecordsOf(head), 0) + Repeat("Duplicate", |GroupFiles(groups[1..])|)
          == Repeat("Duplicate", |GroupFiles(groups)|);
    }
  }

  lemma TypeRowsColumns(types: Counts, cs: seq<Category>)
    ensures SixWide(TypeRows(types, cs))
    ensures Column(RecordsOf(TypeRows(types, cs)), 0) == Repeat("FileType", |cs|)
    ensures Column(RecordsOf(TypeRows(types, cs)), 1) == CategoryKeys(cs)
  {
  }

  lemma LargeFileRowsColumns(files: seq<LargeFile>)
    ensures SixWide(LargeFileRows(files))
    ensures Column(RecordsOf(LargeFileRows(files)), 0) == Repeat("LargeFile", |files|)
    ensures Column(RecordsOf(LargeFileRows(files)), 1) == LargePaths(files)
  {
  }

  /** The large-file rows if the result carries some. */
  function LargePart(r: AnalysisResult): seq<seq<Cell>> {
    if r.largeFiles.Some? && |r.largeFiles.value| > 0 then LargeFileRows(r.largeFiles.value) else []
  }

  /** The duplicate rows if the result carries some groups. */
  function GroupPart(r: AnalysisResult): seq<seq<Cell>> {
    if r.duplicateGroups.Some? && |r.duplicateGroups.value| > 0 then AllGroupRows(r.duplicateGroups.value, 1) else []
  }

  lemma AnalysisBodyParts(r: AnalysisResult)
    ensures AnalysisBody(r) == [SummaryRow(r)] + TypeRows(r.types, NonZeroCategories(r.types)) + LargePart(r) + GroupPart(r)
  {
  }

  lemma AnalysisBodyReadable(r: AnalysisResult)
    requires AnalysisReadable(r)
    ensures ReadableTable(AnalysisBody(r))
  {
    AnalysisBodyParts(r);
    var a := [SummaryRow(r)];
    var b := TypeRows(r.types, NonZeroCategories(r.types));
    var c := LargePart(r);
    var d := GroupPart(r);
    SummaryRowReadable(r);
    TypeRowsReadable(r.types, NonZeroCategories(r.types));
    LargeFileRowsReadable(LargeOf(r));
    AllGroupRowsReadable(GroupsOf(r), 1);
    assert ReadableTable(a) && ReadableTable(c) && ReadableTable(d);
    ReadableConcat(a, b);
    ReadableConcat(a + b, c);
    ReadableConcat(a + b + c, d);
  }

  lemma ReadableConcat(a: seq<seq<Cell>>, b: seq<seq<Cell>>)
    requires ReadableTable(a) && ReadableTable(b)
    ensures ReadableTable(a + b)
  {
    assert forall i :: 0 <= i < |a + b| ==> (a + b)[i] == if i < |a| then a[i] else b[i - |a|];
  }

  /** Every row of the body is six wide and the body has one row per
      record it reports. */
  lemma AnalysisBodyShape(r: AnalysisResult)
    ensures SixWide(AnalysisBody(r))
    ensures |AnalysisBody(r)| == 1 + |NonZeroCategories(r.types)| + |LargeOf(r)| + |GroupFiles(GroupsOf(r))|
  {
    AnalysisBodyParts(r);
    var a := [SummaryRow(r)];
    var b := TypeRows(r.types, NonZeroCategories(r.types));
    var c := LargePart(r);
    var d := GroupPart(r);
    AllGroupRowsColumns(GroupsOf(r), 1);
    assert SixWide(a) && SixWide(b) && SixWide(c) && SixWide(d);
    ColumnConcat(a, b, 0);
    ColumnConcat(a + b, c, 0);
    ColumnConcat(a + b + c, d, 0);
  }

  /** The kinds the body's records carry in their first field. */
  function Kinds(r: AnalysisResult): seq<string> {
    ["Summary"] + Repeat("FileType", |NonZeroCategories(r.types)|) + Repeat("LargeFile", |LargeOf(r)|)
    + Repeat("Duplicate", |GroupFiles(GroupsOf(r))|)
  }

  /** The paths the body's records carry in their second field. */
  function ReportedPaths(r: AnalysisResult): seq<string> {
    [r.path] + CategoryKeys(NonZeroCategories(r.types)) + LargePaths(LargeOf(r)) + GroupFiles(GroupsOf(r))
  }

  lemma AnalysisKindColumn(r: AnalysisResult)
    ensures SixWide(AnalysisBody(r))
    ensures Column(RecordsOf(AnalysisBody(r)), 0) == Kinds(r)
  {
    AnalysisBodyShape(r);
    AnalysisBodyParts(r);
    var nz := NonZeroCategories(r.types);
    var a := [SummaryRow(r)];
    var b := TypeRows(r.types, nz);
    var c := LargePart(r);
    var d := GroupPart(r);
    AllGroupRowsColumns(GroupsOf(r), 1);
    assert SixWide(a) && SixWide(b) && SixWide(c) && SixWide(d);
    assert Column(RecordsOf(a), 0) == ["Summary"];
    TypeRowsColumns(r.types, nz);
    LargeFileRowsColumns(LargeOf(r));
    assert Column(RecordsOf(d), 0) == Repeat("Duplicate", |GroupFiles(GroupsOf(r))|);
    ColumnConcat(a, b, 0);
    ColumnConcat(a + b, c, 0);
    ColumnConcat(a + b + c, d, 0);
  }

  lemma AnalysisPathColumn(r: AnalysisResult)
    ensures SixWide(AnalysisBody(r))
    ensures Column(RecordsOf(AnalysisBody(r)), 1) == ReportedPaths(r)
  {
    AnalysisBodyShape(r);
    AnalysisBodyParts(r);
    var nz := NonZeroCategories(r.types);
    var a := [SummaryRow(r)];
    var b := TypeRows(r.types, nz);
    var c := LargePart(r);
    var d := GroupPart(r);
    AllGroupRowsColumns(GroupsOf(r), 1);
    assert SixWide(a) && SixWide(b) && SixWide(c) && SixWide(d);
    assert Column(RecordsOf(a), 1) == [r.path];
    TypeRowsColumns(r.types, nz);
    LargeFileRowsColumns(LargeOf(r));
    assert Column(RecordsOf(d), 1) == GroupFiles(GroupsOf(r));
    ColumnConcat(a, b, 1);
    ColumnConcat(a + b, c, 1);
    ColumnConcat(a + b + c, d, 1);
  }

  /** What a reader of the analysis export should get: the header, the
      summary record, one record per non-zero category (in key order, with
      its count), one per large file and one per duplicate file, all six
      fields wide; the first field names the kind of each record and the
      second lists the root, the category keys, the large files and the
      duplicate files in that order. */
  predicate DescribesAnalysis(r: AnalysisResult, recs: seq<seq<string>>) {
    |recs| > 0 && recs[0] == AnalysisHeader && DescribesBody(r, recs[1..])
  }

  /** The records after the header: the summary, then one record per
      non-empty category, large file and duplicate file. */
  predicate DescribesBody(r: AnalysisResult, body: seq<seq<string>>) {
    var nz := NonZeroCategories(r.types);
    && |body| == 1 + |nz| + |LargeOf(r)| + |GroupFiles(GroupsOf(r))|
    && (forall i :: 0 <= i < |body| ==> |body[i]| == 6)
    && body[0] == ["Summary", r.path, NatToString(r.totalSizeBytes), r.totalSizeMB + "MB",
                   NatToString(r.files), "Folders: " + NatToString(r.folders)]
    && TypeRecords(r, body)
    && LargeRecords(r, body)
    && GroupRecords(r, body)
    && Column(body, 0) == Kinds(r)
    && Column(body, 1) == ReportedPaths(r)
  }

  /** One record per non-empty category follows the summary, in key order:
      its key and its count. */
  predicate TypeRecords(r: AnalysisResult, body: seq<seq<string>>) {
    forall i :: 0 <= i < |NonZeroCategories(r.types)| ==> TypeRecord(r, body, i)
  }

  /** The record of the `i`-th non-empty category. */
  predicate TypeRecord(r: AnalysisResult, body: seq<seq<string>>, i: nat)
    requires i < |NonZeroCategories(r.types)|
  {
    var c := NonZeroCategories(r.types)[i];
    1 + i < |body| && body[1 + i] == ["FileType", CategoryKey(c), "-", "-", NatToString(r.types.Get(c)), "-"]
  }

  /** One record per large file follows, in list order: its path and its
      size in bytes and formatted. */
  predicate LargeRecords(r: AnalysisResult, body: seq<seq<string>>) {
    forall i :: 0 <= i < |LargeOf(r)| ==> LargeRecord(r, body, i)
  }

  /** The record of the `i`-th large file. */
  predicate LargeRecord(r: AnalysisResult, body: seq<seq<string>>, i: nat)
    requires i < |LargeOf(r)|
  {
    var nz := NonZeroCategories(r.types);
    var f := LargeOf(r)[i];
    && 1 + |nz| + i < |body|
    && body[1 + |nz| + i] == ["LargeFile", f.path, NatToString(f.size), f.sizeFormatted, "1", "-"]
  }

  /** The duplicate records come last, group by group: the `j`-th file of
      the `gi`-th group (both from zero) follows the files of the groups
      before it and carries the group's size and the details of group
      number `gi + 1`. */
  predicate GroupRecords(r: AnalysisResult, body: seq<seq<string>>) {
    forall gi, j :: 0 <= gi < |GroupsOf(r)| && 0 <= j < |GroupsOf(r)[gi].files| ==> GroupRecord(r, body, gi, j)
  }

  /** The record of the `j`-th file of the `gi`-th group. */
  predicate GroupRecord(r: AnalysisResult, body: seq<seq<string>>, gi: nat, j: nat)
    requires gi < |GroupsOf(r)| && j < |GroupsOf(r)[gi].files|
  {
    var nz := NonZeroCategories(r.types);
    var gs := GroupsOf(r);
    && FilesBefore(gs, gi) + j < |GroupFiles(gs)|
    && 1 + |nz| + |LargeOf(r)| + FilesBefore(gs, gi) + j < |body|
    && body[1 + |nz| + |LargeOf(r)| + FilesBefore(gs, gi) + j]
       == ["Duplicate", gs[gi].files[j], NatToString(gs[gi].size), gs[gi].sizeFormatted, "1",
           GroupDetails(gs[gi], gi + 1, j)]
  }

  /** After the summary comes one record per non-empty category, in key
      order: its key and its count. */
  lemma AnalysisBodyCounts(r: AnalysisResult)
    ensures TypeRecords(r, RecordsOf(AnalysisBody(r)))
  {
    forall i | 0 <= i < |NonZeroCategories(r.types)| ensures TypeRecord(r, RecordsOf(AnalysisBody(r)), i) {
      AnalysisTypeRecordAt(r, i);
    }
  }

  lemma InFront<T>(a: seq<T>, b: seq<T>, n: nat)
    requires n < |a|
    ensures (a + b)[n] == a[n]
  {
  }

  lemma AnalysisTypeRecordAt(r: AnalysisResult, i: nat)
    requires i < |NonZeroCategories(r.types)|
    ensures TypeRecord(r, RecordsOf(AnalysisBody(r)), i)
  {
    var nz := NonZeroCategories(r.types);
    var body := AnalysisBody(r);
    var front := [SummaryRow(r)] + TypeRows(r.types, nz);
    assert 1 + i < |body| && body[1 + i] == TypeRows(r.types, nz)[i] by {
      AnalysisBodyParts(r);
      InFront(front + LargePart(r), GroupPart(r), 1 + i);
      InFront(front, LargePart(r), 1 + i);
    }
    SixTexts(TypeRows(r.types, nz)[i]);
  }

  /** The texts of a six-cell row. */
  lemma SixTexts(row: seq<Cell>)
    requires |row| == 6
    ensures Texts(row) == [row[0].text, row[1].text, row[2].text, row[3].text, row[4].text, row[5].text]
  {
  }

  lemma AtMiddle<T>(a: seq<T>, b: seq<T>, c: seq<T>, i: nat)
    requires i < |b|
    ensures |a| + i < |a + b + c| && (a + b + c)[|a| + i] == b[i]
  {
  }

  lemma AnalysisLargeRecordAt(r: AnalysisResult, i: nat)
    requires i < |LargeOf(r)|
    ensures var nz := NonZeroCategories(r.types);
      var rb := RecordsOf(AnalysisBody(r));
      1 + |nz| + i < |rb|
      && rb[1 + |nz| + i]
         == ["LargeFile", LargeOf(r)[i].path, NatToString(LargeOf(r)[i].size), LargeOf(r)[i].sizeFormatted, "1", "-"]
  {
    var nz := NonZeroCategories(r.types);
    var body := AnalysisBody(r);
    assert 1 + |nz| + i < |body| && body[1 + |nz| + i] == LargeFileRows(LargeOf(r))[i] by {
      AnalysisBodyParts(r);
      AtMiddle([SummaryRow(r)] + TypeRows(r.types, nz), LargePart(r), GroupPart(r), i);
    }
    SixTexts(LargeFileRows(LargeOf(r))[i]);
  }

  /** After the category records comes one record per large file, in list
      order: its path, its size in bytes and formatted. */
  lemma AnalysisLargeRecords(r: AnalysisResult)
    ensures LargeRecords(r, RecordsOf(AnalysisBody(r)))
  {
    forall i | 0 <= i < |LargeOf(r)| ensures LargeRecord(r, RecordsOf(AnalysisBody(r)), i) {
      AnalysisLargeRecordAt(r, i);
    }
  }

  lemma AnalysisGroupRecordAt(r: AnalysisResult, gi: nat, j: nat)
    requires gi < |GroupsOf(r)| && j < |GroupsOf(r)[gi].files|
    ensures GroupRecord(r, RecordsOf(AnalysisBody(r)), gi, j)
  {
    var nz := NonZeroCategories(r.types);
    var gs := GroupsOf(r);
    var body := AnalysisBody(r);
    var row := GroupRows(gs[gi], 1 + gi)[j];
    var idx := 1 + |nz| + |LargeOf(r)| + FilesBefore(gs, gi) + j;
    assert FilesBefore(gs, gi) + j < |GroupFiles(gs)| && idx < |body| && body[idx] == row by {
      var k := FilesBefore(gs, gi) + j;
      AllGroupRowsAt(gs, 1, gi, j);
      var head := [SummaryRow(r)] + TypeRows(r.types, nz) + LargePart(r);
      assert |head| == 1 + |nz| + |LargeOf(r)|;
      assert GroupPart(r) == AllGroupRows(gs, 1);
      assert body == head + GroupPart(r) by { AnalysisBodyParts(r); }
    }
    GroupRowTexts(gs[gi], 1 + gi, j);
    assert RecordsOf(body)[idx] == Texts(row);
  }

  lemma GroupRowTexts(g: DuplicateGroup, number: nat, j: nat)
    requires j < |g.files|
    ensures Texts(GroupRows(g, number)[j])
         == ["Duplicate", g.files[j], NatToString(g.size), g.sizeFormatted, "1", GroupDetails(g, number, j)]
  {
    SixTexts(GroupRows(g, number)[j]);
  }

  /** The duplicate records come last, group by group, with the details of
      each group. */
  lemma AnalysisGroupRecords(r: AnalysisResult)
    ensures GroupRecords(r, RecordsOf(AnalysisBody(r)))
  {
    forall gi, j | 0 <= gi < |GroupsOf(r)| && 0 <= j < |GroupsOf(r)[gi].files|
      ensures GroupRecord(r, RecordsOf(AnalysisBody(r)), gi, j)
    {
      AnalysisGroupRecordAt(r, gi, j);
    }
  }

  lemma ExportAnalysisRecords(r: AnalysisResult)
    requires AnalysisReadable(r)
    ensures ReadCsv(ExportAnalysis(r)) == Some([AnalysisHeader] + RecordsOf(AnalysisBody(r)))
  {
    var body := AnalysisBody(r);
    AnalysisBodyReadable(r);
    AnalysisHeaderBareSafe();
    WithHeader(AnalysisHeader, body);
    ReadWrite([BareCells(AnalysisHeader)] + body);
  }

  lemma SummaryRecord(r: AnalysisResult)
    ensures |RecordsOf(AnalysisBody(r))| > 0
    ensures RecordsOf(AnalysisBody(r))[0]
         == ["Summary", r.path, NatToString(r.totalSizeBytes), r.totalSizeMB + "MB",
             NatToString(r.files), "Folders: " + NatToString(r.folders)]
  {
    AnalysisBodyParts(r);
    assert AnalysisBody(r)[0] == SummaryRow(r);
  }

  lemma BodyDescribes(r: AnalysisResult)
    ensures DescribesAnalysis(r, [AnalysisHeader] + RecordsOf(AnalysisBody(r)))
  {
    AnalysisBodyShape(r);
    AnalysisKindColumn(r);
    AnalysisPathColumn(r);
    SummaryRecord(r);
    var rb := RecordsOf(AnalysisBody(r));
    assert TypeRecords(r, rb) by { AnalysisBodyCounts(r); }
    assert LargeRecords(r, rb) by { AnalysisLargeRecords(r); }
    assert GroupRecords(r, rb) by { AnalysisGroupRecords(r); }
    assert DescribesBody(r, rb);
    var recs := [AnalysisHeader] + rb;
    assert recs[1..] == rb;
  }

  /** A reader gets back from the analysis export exactly the records the
      result describes. */
  lemma ExportAnalysisRead(r: AnalysisResult)
    requires AnalysisReadable(r)
    ensures var recs := ReadCsv(ExportAnalysis(r));
      recs.Some? && DescribesAnalysis(r, recs.value)
  {
    ExportAnalysisRecords(r);
    BodyDescribes(r);
  }
}
