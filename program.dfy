/**
 * The work `main` does before it touches the file system (nps_renamer.py
 * lines 124-216): load the catalog with the fixed table, then plan the
 * moves of the packages the glob found.
 */
module Program {
  import opened Wrappers
  import opened Paths
  import opened Catalog
  import opened PkgName
  import opened Matching
  import opened Loader
  import opened Planner

  /** Why a run stops before any file is moved. */
  datatype Failure =
    | LoadFailed(load: LoadError)
    | PlanFailed(plan: PlanError)

  /** Loading, then planning; the first failure ends the run. */
  function RenameSpec(tsvFiles: seq<TsvFile>, pkgFiles: seq<PkgFile>, pkgDir: string, copyDir: string): Result<Plan, Failure> {
    match LoadSpec(InfoTable, tsvFiles)
    case Err(e) => Err(LoadFailed(e))
    case Ok(entries) =>
      match PlanSpec(entries, pkgDir, copyDir, pkgFiles)
      case Err(e) => Err(PlanFailed(e))
      case Ok(p) => Ok(p)
  }

  /** `main` up to the transfer loop: the catalog, then the plan built against it. */
  method PlanRenames(tsvFiles: seq<TsvFile>, pkgFiles: seq<PkgFile>, pkgDir: string, copyDir: string)
    returns (r: Result<Plan, Failure>)
    ensures r == RenameSpec(tsvFiles, pkgFiles, pkgDir, copyDir)
  {
    var loaded := LoadCatalog(InfoTable, tsvFiles);
    if loaded.Err? {
      return Err(LoadFailed(loaded.error));
    }
    var planned := PlanMoves(loaded.value, pkgDir, copyDir, pkgFiles);
    if planned.Err? {
      return Err(PlanFailed(planned.error));
    }
    return Ok(planned.value);
  }

  /**
   * The entry the loader makes of a header row is never matched: its title id
   * is "Title ID" or "", never the nine characters the filename tier compares
   * it with. Its SHA-256 is "SHA256" or "", never a 64-character hex digest.
   */
  lemma HeaderNeverMatched(table: map<string, TsvInfo>, f: TsvFile, name: string, digest: string)
    requires FileLoads(table, f) && f.rows != []
    ensures var e := RowEntry(table, f, 0);
      && (Identify(name).Some? ==>
            var id := Identify(name).value;
            !PredicateFilename(e, id.contentId, id.titleId, id.patch))
      && (|digest| == 64 ==> !PredicateHash(e, digest))
  {
    var headers := f.rows[0];
    HeaderRowEntry(table, f);
    MakeEntryFields(headers, headers, table[Basename(f.path)]);
    RowValSpec(headers, headers, "Title ID");
    RowValSpec(headers, headers, "SHA256");
    if Identify(name).Some? {
      IdentifyIds(name);
    }
  }
}
