/**
 * Building the catalog (nps_renamer.py lines 124-154): the catalog files are
 * visited in descending path order, every row of every file, the header row
 * included, becomes one entry tagged with the file's `TsvInfo`, and an empty
 * catalog stops the program. Each file arrives already split into rows of
 * cells; finding the files and tokenising them are not modelled.
 */
module Loader {
  import opened Wrappers
  import opened Text
  import opened Paths
  import opened Catalog

  /** One catalog file as found on disk: its path and its rows of cells. */
  datatype TsvFile = TsvFile(path: string, rows: seq<seq<string>>)

  /** Why loading stops, each where Python would raise or exit. */
  datatype LoadError =
    | UnknownCatalog(path: string)        // `info[tsv_base]` raises KeyError
    | ShortRow(path: string, row: nat)    // `row_val` raises IndexError
    | EmptyCatalog                        // "The TSV files are not optional", exit status 1

  // ---------------------------------------------------------------------------
  // `tsv_files.sort(reverse=True)`

  /** Paths never increase along `fs`. */
  ghost predicate SortedDesc(fs: seq<TsvFile>) {
    forall i, j :: 0 <= i < j < |fs| ==> !StrLess(fs[i].path, fs[j].path)
  }

  /** Puts `x` in front of the first file whose path is smaller. */
  function Insert(x: TsvFile, s: seq<TsvFile>): seq<TsvFile> {
    if s == [] then [x]
    else if StrLess(s[0].path, x.path) then [x] + s
    else [s[0]] + Insert(x, s[1..])
  }

  /** Insertion sort into descending path order. */
  function SortDesc(fs: seq<TsvFile>): seq<TsvFile> {
    if fs == [] then [] else Insert(fs[0], SortDesc(fs[1..]))
  }

  /** Putting a file no smaller than any of a sorted list's files in front keeps the list sorted. */
  lemma ConsSorted(y: TsvFile, t: seq<TsvFile>)
    requires SortedDesc(t)
    requires forall j :: 0 <= j < |t| ==> !StrLess(y.path, t[j].path)
    ensures SortedDesc([y] + t)
  {
    var r := [y] + t;
    forall i, j | 0 <= i < j < |r| ensures !StrLess(r[i].path, r[j].path) {
      if i > 0 {
        assert r[i] == t[i - 1] && r[j] == t[j - 1];
      } else {
        assert r[j] == t[j - 1];
      }
    }
  }

  lemma {:induction false} InsertPerm(x: TsvFile, s: seq<TsvFile>)
    ensures multiset(Insert(x, s)) == multiset(s) + multiset{x}
  {
    if s != [] && !StrLess(s[0].path, x.path) {
      InsertPerm(x, s[1..]);
      assert s == [s[0]] + s[1..];
    }
  }

  lemma {:induction false} InsertCorrect(x: TsvFile, s: seq<TsvFile>)
    requires SortedDesc(s)
    ensures multiset(Insert(x, s)) == multiset(s) + multiset{x}
    ensures SortedDesc(Insert(x, s))
  {
    InsertPerm(x, s);
    if s == [] {
    } else if StrLess(s[0].path, x.path) {
      forall j | 0 <= j < |s| ensures !StrLess(x.path, s[j].path) {
        if StrLess(x.path, s[j].path) {
          if j > 0 {
            StrLessTransitive(s[0].path, x.path, s[j].path);
          } else {
            StrLessTransitive(x.path, s[0].path, x.path);
            StrLessIrreflexive(x.path);
          }
        }
      }
      ConsSorted(x, s);
    } else {
      var t := Insert(x, s[1..]);
      InsertCorrect(x, s[1..]);
      assert SortedDesc(s[1..]) by {
        assert forall j :: 0 <= j < |s| - 1 ==> s[1..][j] == s[j + 1];
      }
      forall j | 0 <= j < |t| ensures !StrLess(s[0].path, t[j].path) {
        assert t[j] in multiset(t);
        assert t[j] == x || t[j] in s[1..];
      }
      ConsSorted(s[0], t);
    }
  }

  /** The sorted list holds the same files, in descending path order. */
  lemma {:induction false} SortDescCorrect(fs: seq<TsvFile>)
    ensures multiset(SortDesc(fs)) == multiset(fs)
    ensures SortedDesc(SortDesc(fs))
  {
    if fs != [] {
      SortDescCorrect(fs[1..]);
      InsertCorrect(fs[0], SortDesc(fs[1..]));
      assert fs == [fs[0]] + fs[1..];
    }
  }

  // ---------------------------------------------------------------------------
  // The loading loop, as a specification

  /**
   * The entries of the first `n` rows of a file: each row is read against the
   * header row `rows[0]`; the first row some lookup cannot index stops loading.
   */
  function RowEntries(path: string, rows: seq<seq<string>>, n: nat, info: TsvInfo): (r: Result<seq<Entry>, LoadError>)
    requires 0 < n <= |rows|
    ensures r.Err? ==> r.error.ShortRow? && r.error.path == path && r.error.row < n
  {
    var prev := if n == 1 then Ok([]) else RowEntries(path, rows, n - 1, info);
    match prev
    case Err(e) => Err(e)
    case Ok(es) =>
      if RowFits(rows[0], rows[n - 1]) then Ok(es + [MakeEntry(rows[0], rows[n - 1], info)])
      else Err(ShortRow(path, n - 1))
  }

  /** The entries of one file; its base name must be in the fixed table. */
  function FileEntries(table: map<string, TsvInfo>, f: TsvFile): (r: Result<seq<Entry>, LoadError>)
    ensures r.Err? ==> !r.error.EmptyCatalog? && r.error.path == f.path
  {
    var base := Basename(f.path);
    if base !in table then Err(UnknownCatalog(f.path))
    else if f.rows == [] then Ok([])
    else RowEntries(f.path, f.rows, |f.rows|, table[base])
  }

  /** The entries of the files in the order given; the first failing file decides the error. */
  function EntriesOf(table: map<string, TsvInfo>, fs: seq<TsvFile>): (r: Result<seq<Entry>, LoadError>)
    ensures r.Err? ==> !r.error.EmptyCatalog? && exists k :: 0 <= k < |fs| && fs[k].path == r.error.path
  {
    if fs == [] then Ok([])
    else match EntriesOf(table, fs[..|fs| - 1])
      case Err(e) => Err(e)
      case Ok(es) =>
        match FileEntries(table, fs[|fs| - 1])
        case Err(e) => Err(e)
        case Ok(more) => Ok(es + more)
  }

  /** What loading the catalog files yields: sort, load, and refuse an empty catalog. */
  function LoadSpec(table: map<string, TsvInfo>, tsvFiles: seq<TsvFile>): Result<seq<Entry>, LoadError> {
    match EntriesOf(table, SortDesc(tsvFiles))
    case Err(e) => Err(e)
    case Ok(es) => if es == [] then Err(EmptyCatalog) else Ok(es)
  }

  lemma {:induction false} RowEntriesErrSticky(path: string, rows: seq<seq<string>>, m: nat, n: nat, info: TsvInfo)
    requires 0 < m <= n <= |rows| && RowEntries(path, rows, m, info).Err?
    ensures RowEntries(path, rows, n, info) == RowEntries(path, rows, m, info)
    decreases n - m
  {
    if m < n {
      RowEntriesErrSticky(path, rows, m, n - 1, info);
    }
  }

  lemma {:induction false} EntriesOfErrSticky(table: map<string, TsvInfo>, fs: seq<TsvFile>, m: nat)
    requires m <= |fs| && EntriesOf(table, fs[..m]).Err?
    ensures EntriesOf(table, fs) == EntriesOf(table, fs[..m])
    decreases |fs| - m
  {
    if m < |fs| {
      assert fs[..|fs| - 1][..m] == fs[..m];
      EntriesOfErrSticky(table, fs[..|fs| - 1], m);
      assert fs[..|fs|] == fs;
    } else {
      assert fs[..m] == fs;
    }
  }

  /** `entries` followed by the entries of file `f`, or the error reading `f` stops at. */
  function Appended(table: map<string, TsvInfo>, entries: seq<Entry>, f: TsvFile): Result<seq<Entry>, LoadError> {
    match FileEntries(table, f)
    case Err(e) => Err(e)
    case Ok(more) => Ok(entries + more)
  }

  /** One more row: the entry it makes is appended, or the row stops loading. */
  lemma RowEntriesStep(path: string, rows: seq<seq<string>>, n: nat, info: TsvInfo, es: seq<Entry>)
    requires 0 < n <= |rows|
    requires if n == 1 then es == [] else RowEntries(path, rows, n - 1, info) == Ok(es)
    ensures RowFits(rows[0], rows[n - 1]) ==> RowEntries(path, rows, n, info) == Ok(es + [MakeEntry(rows[0], rows[n - 1], info)])
    ensures !RowFits(rows[0], rows[n - 1]) ==> RowEntries(path, rows, n, info) == Err(ShortRow(path, n - 1))
  {
  }

  /** `Appended` for a file whose name is in the table, in terms of its rows' entries. */
  lemma AppendedRows(table: map<string, TsvInfo>, entries: seq<Entry>, f: TsvFile)
    requires Basename(f.path) in table
    ensures f.rows == [] ==> Appended(table, entries, f) == Ok(entries)
    ensures f.rows != [] ==>
      var rs := RowEntries(f.path, f.rows, |f.rows|, table[Basename(f.path)]);
      Appended(table, entries, f) == if rs.Ok? then Ok(entries + rs.value) else Err(rs.error)
  {
    if f.rows != [] {
      var rs := RowEntries(f.path, f.rows, |f.rows|, table[Basename(f.path)]);
      assert FileEntries(table, f) == rs;
    } else {
      assert entries + [] == entries;
    }
  }

  /**
   * The inner loop over one file's rows: the first row becomes the header
   * row, and every row, that one included, is appended as an entry.
   */
  method AppendRows(table: map<string, TsvInfo>, entries: seq<Entry>, f: TsvFile, info: TsvInfo) returns (r: Result<seq<Entry>, LoadError>)
    requires Basename(f.path) in table && info == table[Basename(f.path)]
    ensures r == Appended(table, entries, f)
  {
    AppendedRows(table, entries, f);
    var acc := entries;
    var headers: seq<string> := [];
    ghost var fromFile: seq<Entry> := [];
    for j := 0 to |f.rows|
      invariant j > 0 ==> headers == f.rows[0] && RowEntries(f.path, f.rows, j, info) == Ok(fromFile)
      invariant j == 0 ==> fromFile == []
      invariant acc == entries + fromFile
    {
      var row := f.rows[j];
      if j == 0 {
        headers := row;
      }
      assert headers == f.rows[0];
      RowEntriesStep(f.path, f.rows, j + 1, info, fromFile);
      if !RowFits(headers, row) {
        RowEntriesErrSticky(f.path, f.rows, j + 1, |f.rows|, info);
        assert RowEntries(f.path, f.rows, |f.rows|, info) == Err(ShortRow(f.path, j));
        return Err(ShortRow(f.path, j));
      }
      var entry := MakeEntry(headers, row, info);
      acc := acc + [entry];
      fromFile := fromFile + [entry];
    }
    if f.rows == [] {
      assert acc == entries;
    } else {
      assert RowEntries(f.path, f.rows, |f.rows|, info) == Ok(fromFile);
    }
    return Ok(acc);
  }

  /** One more file: the load of `fs[..i + 1]` is the load of `fs[..i]` with file `i` appended. */
  lemma EntriesOfStep(table: map<string, TsvInfo>, fs: seq<TsvFile>, i: nat, es: seq<Entry>)
    requires i < |fs| && EntriesOf(table, fs[..i]) == Ok(es)
    ensures EntriesOf(table, fs[..i + 1]) == Appended(table, es, fs[i])
    ensures Basename(fs[i].path) !in table ==> Appended(table, es, fs[i]) == Err(UnknownCatalog(fs[i].path))
  {
    assert fs[..i + 1][..i] == fs[..i];
  }

  /**
   * The loading loop: the files in descending path order, each file's rows
   * appended in turn, and an empty result refused.
   */
  method LoadCatalog(table: map<string, TsvInfo>, tsvFiles: seq<TsvFile>) returns (r: Result<seq<Entry>, LoadError>)
    ensures r == LoadSpec(table, tsvFiles)
  {
    var files := SortDesc(tsvFiles);
    var entries: seq<Entry> := [];
    for i := 0 to |files|
      invariant EntriesOf(table, files[..i]) == Ok(entries)
    {
      var f := files[i];
      EntriesOfStep(table, files, i, entries);
      var base := Basename(f.path);
      if base !in table {
        EntriesOfErrSticky(table, files, i + 1);
        assert files[..|files|] == files;
        return Err(UnknownCatalog(f.path));
      }
      var next := AppendRows(table, entries, f, table[base]);
      if next.Err? {
        EntriesOfErrSticky(table, files, i + 1);
        assert files[..|files|] == files;
        return Err(next.error);
      }
      entries := next.value;
    }
    assert files[..|files|] == files;
    if entries == [] {
      return Err(EmptyCatalog);
    }
    return Ok(entries);
  }

  // ---------------------------------------------------------------------------
  // What the loaded catalog holds

  /** The number of rows in all the files. */
  function TotalRows(fs: seq<TsvFile>): nat {
    if fs == [] then 0 else TotalRows(fs[..|fs| - 1]) + |fs[|fs| - 1].rows|
  }

  /** The entry row `j` of file `f` yields. */
  function RowEntry(table: map<string, TsvInfo>, f: TsvFile, j: nat): Entry
    requires Basename(f.path) in table && j < |f.rows| && RowFits(f.rows[0], f.rows[j])
  {
    MakeEntry(f.rows[0], f.rows[j], table[Basename(f.path)])
  }

  /** Every lookup of the file can index its row, and its name is in the table. */
  predicate FileLoads(table: map<string, TsvInfo>, f: TsvFile) {
    Basename(f.path) in table && forall j :: 0 <= j < |f.rows| ==> RowFits(f.rows[0], f.rows[j])
  }

  lemma {:induction false} RowEntriesShape(path: string, rows: seq<seq<string>>, n: nat, info: TsvInfo)
    requires 0 < n <= |rows|
    ensures RowEntries(path, rows, n, info).Ok? <==> forall j :: 0 <= j < n ==> RowFits(rows[0], rows[j])
    ensures RowEntries(path, rows, n, info).Ok? ==>
      var es := RowEntries(path, rows, n, info).value;
      |es| == n && forall j :: 0 <= j < n ==> es[j] == MakeEntry(rows[0], rows[j], info)
  {
    if n > 1 {
      RowEntriesShape(path, rows, n - 1, info);
    }
  }

  lemma {:induction false} RowEntriesCount(path: string, rows: seq<seq<string>>, n: nat, info: TsvInfo)
    requires 0 < n <= |rows| && RowEntries(path, rows, n, info).Ok?
    ensures |RowEntries(path, rows, n, info).value| == n
  {
    if n > 1 {
      RowEntriesCount(path, rows, n - 1, info);
    }
  }

  /** A file that loads yields one entry per row. */
  lemma FileEntriesCount(table: map<string, TsvInfo>, f: TsvFile)
    requires FileEntries(table, f).Ok?
    ensures |FileEntries(table, f).value| == |f.rows|
  {
    if f.rows != [] {
      RowEntriesCount(f.path, f.rows, |f.rows|, table[Basename(f.path)]);
    }
  }

  /** A file loads exactly when `FileLoads` says so, and then yields one entry per row, in order. */
  lemma FileEntriesShape(table: map<string, TsvInfo>, f: TsvFile)
    ensures FileEntries(table, f).Ok? <==> FileLoads(table, f)
    ensures FileEntries(table, f).Ok? ==>
      |FileEntries(table, f).value| == |f.rows| &&
      forall j :: 0 <= j < |f.rows| ==> FileEntries(table, f).value[j] == RowEntry(table, f, j)
  {
    if f.rows != [] && Basename(f.path) in table {
      RowEntriesShape(f.path, f.rows, |f.rows|, table[Basename(f.path)]);
    }
  }

  /** Loading succeeds exactly when every file is named in the table and every row has the cells its header asks for. */
  lemma {:induction false} EntriesOfOk(table: map<string, TsvInfo>, fs: seq<TsvFile>)
    ensures EntriesOf(table, fs).Ok? <==> forall k :: 0 <= k < |fs| ==> FileLoads(table, fs[k])
  {
    if fs != [] {
      var init := fs[..|fs| - 1];
      EntriesOfOk(table, init);
      FileEntriesShape(table, fs[|fs| - 1]);
      assert forall k :: 0 <= k < |fs| - 1 ==> fs[k] == init[k];
    }
  }

  /** A successful load has one entry per row of all the files. */
  lemma {:induction false} EntriesOfCount(table: map<string, TsvInfo>, fs: seq<TsvFile>)
    requires EntriesOf(table, fs).Ok?
    ensures |EntriesOf(table, fs).value| == TotalRows(fs)
  {
    if fs != [] {
      EntriesOfCount(table, fs[..|fs| - 1]);
      FileEntriesCount(table, fs[|fs| - 1]);
    }
  }

  /** A successful load of `fs` is the load of all but its last file, then the last file's entries. */
  lemma EntriesOfLast(table: map<string, TsvInfo>, fs: seq<TsvFile>)
    requires EntriesOf(table, fs).Ok? && fs != []
    ensures EntriesOf(table, fs[..|fs| - 1]).Ok? && FileEntries(table, fs[|fs| - 1]).Ok?
    ensures EntriesOf(table, fs).value == EntriesOf(table, fs[..|fs| - 1]).value + FileEntries(table, fs[|fs| - 1]).value
  {
  }

  /**
   * After a successful load the entries are the files' entries laid end to
   * end: file `k`'s `j`-th entry sits at position `TotalRows(fs[..k]) + j`.
   */
  lemma {:induction false} EntryAt(table: map<string, TsvInfo>, fs: seq<TsvFile>, k: nat, j: nat)
    requires EntriesOf(table, fs).Ok? && k < |fs| && j < |fs[k].rows|
    ensures FileEntries(table, fs[k]).Ok? && j < |FileEntries(table, fs[k]).value|
    ensures TotalRows(fs[..k]) + j < |EntriesOf(table, fs).value|
    ensures EntriesOf(table, fs).value[TotalRows(fs[..k]) + j] == FileEntries(table, fs[k]).value[j]
  {
    EntriesOfLast(table, fs);
    if k < |fs| - 1 {
      var init := fs[..|fs| - 1];
      assert fs[k] == init[k];
      EntryAt(table, init, k, j);
      EntryInInit(table, fs, k, j);
    } else {
      EntryInLast(table, fs, j);
    }
  }

  /** The step of `EntryAt` for a file before the last: its entries keep their place. */
  lemma EntryInInit(table: map<string, TsvInfo>, fs: seq<TsvFile>, k: nat, j: nat)
    requires EntriesOf(table, fs).Ok? && fs != [] && k < |fs| - 1
    requires var init := fs[..|fs| - 1];
      && EntriesOf(table, init).Ok? && FileEntries(table, init[k]).Ok?
      && j < |FileEntries(table, init[k]).value|
      && TotalRows(init[..k]) + j < |EntriesOf(table, init).value|
      && EntriesOf(table, init).value[TotalRows(init[..k]) + j] == FileEntries(table, init[k]).value[j]
    ensures FileEntries(table, fs[k]).Ok? && j < |FileEntries(table, fs[k]).value|
    ensures TotalRows(fs[..k]) + j < |EntriesOf(table, fs).value|
    ensures EntriesOf(table, fs).value[TotalRows(fs[..k]) + j] == FileEntries(table, fs[k]).value[j]
  {
    var init := fs[..|fs| - 1];
    EntriesOfLast(table, fs);
    var before := EntriesOf(table, init).value;
    var last := FileEntries(table, fs[|fs| - 1]).value;
    assert fs[k] == init[k];
    assert fs[..k] == init[..k];
    ConcatLeft(before, last, TotalRows(init[..k]) + j);
  }

  /** The step of `EntryAt` for the last file: its entries follow all the others. */
  lemma EntryInLast(table: map<string, TsvInfo>, fs: seq<TsvFile>, j: nat)
    requires EntriesOf(table, fs).Ok? && fs != [] && j < |fs[|fs| - 1].rows|
    ensures var k := |fs| - 1;
      && FileEntries(table, fs[k]).Ok? && j < |FileEntries(table, fs[k]).value|
      && TotalRows(fs[..k]) + j < |EntriesOf(table, fs).value|
      && EntriesOf(table, fs).value[TotalRows(fs[..k]) + j] == FileEntries(table, fs[k]).value[j]
  {
    var init := fs[..|fs| - 1];
    EntriesOfLast(table, fs);
    EntriesOfCount(table, init);
    EntriesOfFile(table, fs, |fs| - 1);
    var before := EntriesOf(table, init).value;
    var last := FileEntries(table, fs[|fs| - 1]).value;
    ConcatRight(before, last, j);
  }

  lemma ConcatLeft<T>(a: seq<T>, b: seq<T>, i: nat)
    requires i < |a|
    ensures (a + b)[i] == a[i]
  {
  }

  lemma ConcatRight<T>(a: seq<T>, b: seq<T>, j: nat)
    requires j < |b|
    ensures (a + b)[|a| + j] == b[j]
  {
  }

  /** Each file of a successful load loads, with one entry per row. */
  lemma EntriesOfFile(table: map<string, TsvInfo>, fs: seq<TsvFile>, k: nat)
    requires EntriesOf(table, fs).Ok? && k < |fs|
    ensures FileEntries(table, fs[k]).Ok? && |FileEntries(table, fs[k]).value| == |fs[k].rows|
  {
    EntriesOfOk(table, fs);
    FileEntriesShape(table, fs[k]);
  }

  /**
   * Every row of every file, the header row included, is one entry of the
   * loaded catalog: row `j` of the `k`-th file in load order sits at position
   * `TotalRows(fs[..k]) + j`, built from that row and tagged with that file's
   * `TsvInfo`.
   */
  lemma LoadedRow(table: map<string, TsvInfo>, fs: seq<TsvFile>, k: nat, j: nat)
    requires EntriesOf(table, fs).Ok? && k < |fs| && j < |fs[k].rows|
    ensures FileLoads(table, fs[k])
    ensures TotalRows(fs[..k]) + j < |EntriesOf(table, fs).value|
    ensures EntriesOf(table, fs).value[TotalRows(fs[..k]) + j] == RowEntry(table, fs[k], j)
    ensures EntriesOf(table, fs).value[TotalRows(fs[..k]) + j].info == table[Basename(fs[k].path)]
  {
    EntriesOfFile(table, fs, k);
    EntryAt(table, fs, k, j);
    FileEntriesShape(table, fs[k]);
  }

  /**
   * The header row of each file becomes an entry too: where the header names
   * a column, that entry's field holds the column's own name.
   */
  lemma HeaderRowEntry(table: map<string, TsvInfo>, f: TsvFile)
    requires FileLoads(table, f) && f.rows != []
    ensures var e := RowEntry(table, f, 0);
      && ("Title ID" in f.rows[0] ==> e.titleId == "Title ID")
      && ("Region" in f.rows[0] ==> e.region == "Region")
      && ("Name" in f.rows[0] ==> e.name == "Name")
      && ("Content ID" in f.rows[0] ==> e.contentId == "Content ID")
      && ("App Version" in f.rows[0] ==> e.appVersion == "App Version")
      && ("Update Version" in f.rows[0] ==> e.updateVersion == "Update Version")
      && ("SHA256" in f.rows[0] ==> e.sha256 == "SHA256")
      && e.info == table[Basename(f.path)]
  {
    var h := f.rows[0];
    MakeEntryFields(h, h, table[Basename(f.path)]);
    if "Title ID" in h { RowValOfHeader(h, "Title ID"); }
    if "Region" in h { RowValOfHeader(h, "Region"); }
    if "Name" in h { RowValOfHeader(h, "Name"); }
    if "Content ID" in h { RowValOfHeader(h, "Content ID"); }
    if "App Version" in h { RowValOfHeader(h, "App Version"); }
    if "Update Version" in h { RowValOfHeader(h, "Update Version"); }
    if "SHA256" in h { RowValOfHeader(h, "SHA256"); }
  }

  /** Loading ends in EmptyCatalog exactly when every file loads and none has a row. */
  lemma EmptyCatalogWhen(table: map<string, TsvInfo>, tsvFiles: seq<TsvFile>)
    ensures var fs := SortDesc(tsvFiles);
      LoadSpec(table, tsvFiles) == Err(EmptyCatalog) <==>
        (forall k :: 0 <= k < |fs| ==> FileLoads(table, fs[k])) && TotalRows(fs) == 0
  {
    var fs := SortDesc(tsvFiles);
    EntriesOfOk(table, fs);
    if EntriesOf(table, fs).Ok? {
      EntriesOfCount(table, fs);
    }
  }
}
