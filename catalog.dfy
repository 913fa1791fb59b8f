/**
 * The catalog records (`TSVInfo`, `TSVEntry`), the fixed table from catalog file
 * name to console and content type, and the column lookup `row_val`.
 */
module Catalog {
  import opened Wrappers
  import opened Text

  /** `TSVInfo`: the console and the content type one catalog file describes. */
  datatype TsvInfo = TsvInfo(console: string, kind: string)

  /** `TSVEntry`: one catalog row, tagged with the `TsvInfo` of the file it came from. */
  datatype Entry = Entry(
    titleId: string,
    region: string,
    name: string,
    contentId: string,
    appVersion: string,
    updateVersion: string,
    sha256: string,
    info: TsvInfo)

  /** The catalog file names the program knows, and what each one holds. */
  const InfoTable: map<string, TsvInfo> := map[
    "PS3_AVATARS.tsv" := TsvInfo("PS3", "avatar"),
    "PS3_DEMOS.tsv" := TsvInfo("PS3", "demo"),
    "PS3_DLCS.tsv" := TsvInfo("PS3", "dlc"),
    "PS3_GAMES.tsv" := TsvInfo("PS3", "game"),
    "PS3_THEMES.tsv" := TsvInfo("PS3", "theme"),
    "PSM_GAMES.tsv" := TsvInfo("PSM", "game"),
    "PSP_DLCS.tsv" := TsvInfo("PSP", "dlc"),
    "PSP_GAMES.tsv" := TsvInfo("PSP", "game"),
    "PSP_THEMES.tsv" := TsvInfo("PSP", "theme"),
    "PSP_UPDATES.tsv" := TsvInfo("PSP", "update"),
    "PSV_DEMOS.tsv" := TsvInfo("PSV", "demo"),
    "PSV_DLCS.tsv" := TsvInfo("PSV", "dlc"),
    "PSV_GAMES.tsv" := TsvInfo("PSV", "game"),
    "PSV_THEMES.tsv" := TsvInfo("PSV", "theme"),
    "PSV_UPDATES.tsv" := TsvInfo("PSV", "update"),
    "PSX_GAMES.tsv" := TsvInfo("PSX", "game")
  ]

  /**
   * `row_val` can index the row: the column is absent from the header, or the
   * row is long enough to have it. Otherwise Python raises IndexError, which
   * nothing catches.
   */
  predicate RowHas(headers: seq<string>, row: seq<string>, col: string) {
    match IndexOf(headers, col)
    case None => true
    case Some(i) => i < |row|
  }

  /** `row_val`: the row's cell under the first header named `col`, or "" when no header is. */
  function RowVal(headers: seq<string>, row: seq<string>, col: string): string
    requires RowHas(headers, row, col)
  {
    match IndexOf(headers, col)
    case None => ""
    case Some(i) => row[i]
  }

  /**
   * What `row_val` returns: "" when no header is named `col`, and otherwise
   * the cell of `row` under the first header that is.
   */
  lemma RowValSpec(headers: seq<string>, row: seq<string>, col: string)
    requires RowHas(headers, row, col)
    ensures col !in headers ==> RowVal(headers, row, col) == ""
    ensures col in headers ==>
      exists i :: 0 <= i < |headers| && i < |row| && headers[i] == col && col !in headers[..i]
        && RowVal(headers, row, col) == row[i]
  {
  }

  /** Looking a column up in the header row itself gives back the column's name. */
  lemma RowValOfHeader(headers: seq<string>, col: string)
    requires col in headers
    ensures RowHas(headers, headers, col)
    ensures RowVal(headers, headers, col) == col
  {
  }

  /** The columns the loader reads, in the order of the `TSVEntry` fields they fill. */
  const Columns: seq<string> := ["Title ID", "Region", "Name", "Content ID", "App Version", "Update Version", "SHA256"]

  /** `row_val` can index the row for every column of `cols`. */
  predicate HasAll(headers: seq<string>, row: seq<string>, cols: seq<string>) {
    cols == [] || (RowHas(headers, row, cols[0]) && HasAll(headers, row, cols[1..]))
  }

  /** The cells `row_val` reads for the columns `cols`, in order. */
  function Cells(headers: seq<string>, row: seq<string>, cols: seq<string>): (r: seq<string>)
    requires HasAll(headers, row, cols)
    ensures |r| == |cols|
  {
    if cols == [] then [] else [RowVal(headers, row, cols[0])] + Cells(headers, row, cols[1..])
  }

  lemma {:induction false} HasAllEach(headers: seq<string>, row: seq<string>, cols: seq<string>)
    ensures HasAll(headers, row, cols) <==> forall i :: 0 <= i < |cols| ==> RowHas(headers, row, cols[i])
  {
    if cols != [] {
      HasAllEach(headers, row, cols[1..]);
      assert forall i :: 1 <= i < |cols| ==> cols[i] == cols[1..][i - 1];
    }
  }

  lemma {:induction false} CellsEach(headers: seq<string>, row: seq<string>, cols: seq<string>)
    requires HasAll(headers, row, cols)
    ensures forall i :: 0 <= i < |cols| ==> RowHas(headers, row, cols[i]) && Cells(headers, row, cols)[i] == RowVal(headers, row, cols[i])
  {
    if cols != [] {
      CellsEach(headers, row, cols[1..]);
      assert forall i :: 1 <= i < |cols| ==> cols[i] == cols[1..][i - 1];
    }
  }

  /** Every column lookup the loader performs on `row` can index it. */
  predicate RowFits(headers: seq<string>, row: seq<string>) {
    HasAll(headers, row, Columns)
  }

  /** The `TSVEntry` the loader builds from one row. */
  function MakeEntry(headers: seq<string>, row: seq<string>, info: TsvInfo): Entry
    requires RowFits(headers, row)
  {
    var c := Cells(headers, row, Columns);
    Entry(c[0], c[1], c[2], c[3], c[4], c[5], c[6], info)
  }

  /** A row fits exactly when each of the seven lookups can index it. */
  lemma RowFitsEach(headers: seq<string>, row: seq<string>)
    ensures RowFits(headers, row) <==>
      && RowHas(headers, row, "Title ID")
      && RowHas(headers, row, "Region")
      && RowHas(headers, row, "Name")
      && RowHas(headers, row, "Content ID")
      && RowHas(headers, row, "App Version")
      && RowHas(headers, row, "Update Version")
      && RowHas(headers, row, "SHA256")
  {
    HasAllEach(headers, row, Columns);
    assert Columns[0] == "Title ID" && Columns[1] == "Region" && Columns[2] == "Name";
    assert Columns[3] == "Content ID" && Columns[4] == "App Version";
    assert Columns[5] == "Update Version" && Columns[6] == "SHA256";
  }

  /** Each field of the entry is `row_val` of its column, and the entry carries the file's `TsvInfo`. */
  lemma MakeEntryFields(headers: seq<string>, row: seq<string>, info: TsvInfo)
    requires RowFits(headers, row)
    ensures var e := MakeEntry(headers, row, info);
      && RowHas(headers, row, "Title ID") && e.titleId == RowVal(headers, row, "Title ID")
      && RowHas(headers, row, "Region") && e.region == RowVal(headers, row, "Region")
      && RowHas(headers, row, "Name") && e.name == RowVal(headers, row, "Name")
      && RowHas(headers, row, "Content ID") && e.contentId == RowVal(headers, row, "Content ID")
      && RowHas(headers, row, "App Version") && e.appVersion == RowVal(headers, row, "App Version")
      && RowHas(headers, row, "Update Version") && e.updateVersion == RowVal(headers, row, "Update Version")
      && RowHas(headers, row, "SHA256") && e.sha256 == RowVal(headers, row, "SHA256")
      && e.info == info
  {
    CellsEach(headers, row, Columns);
    assert Columns[0] == "Title ID" && Columns[1] == "Region" && Columns[2] == "Name";
    assert Columns[3] == "Content ID" && Columns[4] == "App Version";
    assert Columns[5] == "Update Version" && Columns[6] == "SHA256";
  }
}
