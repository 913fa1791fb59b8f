# nps_renamer in Dafny

nps_renamer renames PlayStation package files (`.pkg`) after the NoPayStation
catalogs. It reads the catalog files (`*.tsv`, one per console and content
type) into a list of entries. Each entry has a title id, region, name, content
id, app and update version, SHA-256, and the console/type of its catalog file.
For every package found under the package directory it then does three things:

- It checks the four-byte magic number.
- It looks up the catalog entry. The package's base name is tried first: when it
  has the canonical `XX0000-ABCD12345_00-…[_patch_N].pkg` shape, the entry is
  matched on the content id and title id, or on the title id and update
  version when a non-zero patch number is present. Otherwise the entry is
  matched on the package's SHA-256.
- It plans a move to `<base>/<console>/<type>/<name>[ (<update>)] [<title id>].pkg`.
  The " (<update>)" part appears only for a non-empty update version.
  Forbidden characters in the name are replaced and surrounding whitespace is
  stripped. When an earlier package of the same run already claimed that path
  (compared case-insensitively), the name gets a counter " (n)".

This project models the decisions `main` makes before its transfer loop:
- `Loader` models the sorted catalog loading, with its error cases.
- `PkgName` models the file-name pattern.
- `Matching` models the two match predicates.
- `Planner` models the planning loop with its duplicate counters.
- `Program` models `main` up to the transfer loop.

The loops that change state step by step are methods, each proved equal to a
specification function: `LoadCatalog` to `LoadSpec`, its row loop `AppendRows`
to `Appended`, and `PlanMoves` to `PlanSpec`. `PlanRenames`, which runs the two
in turn, is proved equal to `RenameSpec`. The lemmas state what the program
promises about those functions. The central results are:

- `Planner.DestinationsDistinct` and `Planner.MovesDistinct`: for packages whose
  names end in `.pkg`, no two planned destinations coincide, even up to
  upper/lower case. This is what the duplicate counter is for.
- `Loader.EmptyCatalogWhen`: loading fails with "not optional" exactly when every
  catalog loads and none has a row.
- `Planner.RunOk` and `Planner.RunStopsAtFirst`: planning fails exactly at the
  first file shorter than four bytes.

Modules: `Wrappers` (Option, Result), `Text` (Python string helpers), `Paths`
(POSIX `os.path`), `Catalog`, `Naming`, `PkgName`, `Matching`, `Magic`,
`Loader`, `Planner`, `Program`.

## Model

| member | source | states |
|---|---|---|
| Text.StripShape | nps_renamer.py:71 | `strip()` keeps a contiguous slice of its input that neither starts nor ends with a Python whitespace character, and everything it cuts off before and after that slice is whitespace |
| Text.LStripChar | nps_renamer.py:105 | `lstrip("0")` removes exactly a leading run of the character and leaves a suffix that does not start with it |
| Text.Lower | nps_renamer.py:203 | lower-casing keeps the length and maps each character on its own (ASCII letters only) |
| Text.NatToStringInjective | nps_renamer.py:207 | distinct duplicate counters print as distinct decimal strings |
| Text.NatToStringValue | nps_renamer.py:207 | the decimal digits `str(n)` produces read back as `n` |
| Text.IndexOf | nps_renamer.py:118 | `list.index` gives the first position holding the value, and fails exactly when the value is absent |
| Text.StrLessTransitive | nps_renamer.py:125 | Python's string order used by the sort is transitive |
| Text.StrLessTotal | nps_renamer.py:125 | any two different strings are ordered one way or the other |
| Paths.BasenameAfterLastSlash | nps_renamer.py:131 | the base name is a suffix of the path without '/', preceded by a '/' unless it is the whole path: exactly what follows the last '/' |
| Paths.Join | nps_renamer.py:27 | an absolute second part replaces the first; otherwise the second part is appended directly when the first is empty or ends in '/', and after one added '/' when not |
| Paths.SplitExt | nps_renamer.py:197 | root + extension give back the path; the extension is empty or one '.' with no further '.' or '/'; it is empty exactly when no '.' in the last segment follows a non-dot character of it |
| Paths.SplitExtNeedsNonDot | nps_renamer.py:197 | a non-empty extension has a non-dot character of the last segment before it, so a name like ".bashrc" has no extension |
| Paths.SplitExtPkg | nps_renamer.py:206 | a name ending in ".pkg" after a non-dot splits into its stem and ".pkg" |
| Catalog.RowValSpec | nps_renamer.py:116-120 | `row_val` is "" when no header has the column's name, and otherwise the cell under the first header that has it |
| Catalog.RowValOfHeader | nps_renamer.py:137-139 | looking a column up in the header row itself gives back the column's name |
| Catalog.RowFitsEach | nps_renamer.py:139-146 | a row loads exactly when each of the seven column lookups can index it |
| Catalog.MakeEntryFields | nps_renamer.py:139-147 | each field of the entry is `row_val` of its own column, and the entry carries its file's console and type |
| Naming.DirPath | nps_renamer.py:26-27 | for a relative content type, the directory is the console, a '/' unless the console is empty or already ends in one, then the type |
| Naming.TableDirPaths | nps_renamer.py:48-65 | every console/type pair of the fixed table gives the two-segment path "console/type" |
| Naming.FileName | nps_renamer.py:41-45 | the name, " (update)" only when the update version is not empty, " [title id]", then the extension |
| Naming.Sanitize | nps_renamer.py:69-71 | the result has none of `<>:"/\|?*`, does not start or end with whitespace, and is a piece of the name with those characters replaced by '_', with only whitespace cut off around it |
| Naming.SanitizeKeepsClean | nps_renamer.py:69-71 | a name with no forbidden character and no whitespace at either end comes back unchanged |
| Naming.SanitizeIdempotent | nps_renamer.py:69-71 | sanitizing a sanitized name changes nothing |
| Naming.SanitizeHasNoSlash | nps_renamer.py:71 | a sanitized name never holds '/', so joining it never discards the directory |
| Naming.PkgFileNameShape | nps_renamer.py:197-199 | for a ".pkg" package the sanitized destination name still ends in "].pkg" |
| PkgName.FindPatchEnd | nps_renamer.py:66 | the lazy patch group ends at the first position where `\.pkg$` matches, with no newline crossed |
| PkgName.FindEnd | nps_renamer.py:66 | the lazy content-id group ends at the first position where the rest of the pattern matches, trying the optional patch group first |
| PkgName.Parse | nps_renamer.py:66 | a match is the one the regex engine chooses, and no match means no split of the name is accepted |
| PkgName.IdentifyIds | nps_renamer.py:66 | the title id is characters 7-15 of the name (four letters, five digits) and lies inside the content id, a prefix of the name |
| PkgName.IdentifyRebuild | nps_renamer.py:66 | a matched name is the content id, the optional "_patch_" marker and patch, and ".pkg" (ASCII case-insensitive, an optional final newline) |
| PkgName.IdentifyCanonical | nps_renamer.py:66 | every canonical name with no patch is recognised, with its title id |
| Matching.PredicateFilename | nps_renamer.py:104-109 | with an all-zero or empty patch: content id and title id must agree; otherwise: title id and update version (without leading zeros) |
| Matching.PatchIgnoresContentId | nps_renamer.py:106-107 | with a real patch number the content id plays no part |
| Matching.LeadingZerosIgnored | nps_renamer.py:105 | a leading zero in the patch number never changes the verdict |
| Matching.FindFirst | nps_renamer.py:182 | `next(...)` yields the first element satisfying the predicate, or none when no element does |
| Matching.MatchEntry | nps_renamer.py:180-186 | a recognised name matches by the filename predicate only; any other name by the SHA-256 only; in both cases the first such entry |
| Magic.Int32LE | nps_renamer.py:76 | the signed little-endian reading of four bytes stays in 32-bit range |
| Magic.MagicBytes | nps_renamer.py:76 | the value equals 0x474B507F exactly when the bytes are 7F 'P' 'K' 'G' |
| Magic.IsPkg | nps_renamer.py:74-76 | fails exactly on fewer than four bytes; otherwise true exactly for the magic bytes |
| Loader.InsertCorrect | nps_renamer.py:125 | inserting into a descending list keeps it descending and adds exactly that file |
| Loader.SortDescCorrect | nps_renamer.py:125 | `sort(reverse=True)` yields a permutation of the files in descending path order |
| Loader.RowEntries | nps_renamer.py:136-150 | a failure is the short-row error, naming the file and one of the rows read so far |
| Loader.FileEntries | nps_renamer.py:131-150 | a file fails with its own path, never with the empty-catalog error |
| Loader.EntriesOf | nps_renamer.py:130-150 | a failed load names one of the files |
| Loader.AppendRows | nps_renamer.py:134-150 | the row loop of one file appends its entries as the specification does, or stops at the short row |
| Loader.LoadCatalog | nps_renamer.py:124-154 | the loading loop returns exactly `LoadSpec`: sort, then each file in turn, then the empty-catalog check |
| Loader.EntriesOfErrSticky | nps_renamer.py:130-150 | once a file fails, no later file changes the result |
| Loader.RowEntriesShape | nps_renamer.py:136-150 | a file's rows load exactly when every row fits its header, each giving the entry built from it |
| Loader.FileEntriesShape | nps_renamer.py:131-150 | a file loads exactly when its name is in the table and every row fits |
| Loader.FileEntriesCount | nps_renamer.py:136-150 | a loaded file gives one entry per row, the header row included |
| Loader.EntriesOfOk | nps_renamer.py:130-150 | loading succeeds exactly when every file loads |
| Loader.EntriesOfCount | nps_renamer.py:130-150 | the catalog has exactly as many entries as the files have rows |
| Loader.EntryAt | nps_renamer.py:130-150 | row j of file k sits at position (rows of files before k) + j of the catalog |
| Loader.LoadedRow | nps_renamer.py:130-150 | that entry is built from row j and file k's header and carries file k's console and type |
| Loader.HeaderRowEntry | nps_renamer.py:136-150 | the header row itself becomes an entry whose fields are the column names |
| Loader.EmptyCatalogWhen | nps_renamer.py:152-154 | loading fails as empty exactly when every file loads and none has a row |
| Planner.DestBase | nps_renamer.py:192-195 | the copy directory when one is given, otherwise the package directory |
| Planner.DecideErr | nps_renamer.py:177 | the loop body fails exactly on a file shorter than four bytes |
| Planner.Run | nps_renamer.py:176-216 | a run that succeeds has one outcome per file |
| Planner.PlanMoves | nps_renamer.py:176-216 | the planning loop returns exactly `PlanSpec` |
| Planner.RunErrSticky | nps_renamer.py:177 | a failure on a prefix of the files is the failure of the whole run |
| Planner.RunPrefix | nps_renamer.py:176-216 | the outcomes of a prefix are a prefix of the outcomes |
| Planner.Classified | nps_renamer.py:176-200 | each recorded outcome agrees with its file's magic number and match |
| Planner.RunOk | nps_renamer.py:176-178 | planning succeeds exactly when every file has at least four bytes |
| Planner.RunStopsAtFirst | nps_renamer.py:176-178 | a failed run names the first file shorter than four bytes |
| Planner.CountKeyMonotone | nps_renamer.py:203-211 | the number of placements under a key never drops as the run proceeds |
| Planner.RunDupes | nps_renamer.py:203-211 | a key is in `dupe_paths` exactly when some file was placed under it, and holds the number of such files minus one |
| Planner.PlacedCount | nps_renamer.py:203-211 | a placed file's counter is the number of earlier files placed under the same key |
| Planner.DupeSuffix | nps_renamer.py:203-211 | the first file under a key keeps its name; the n-th later one gets " (n)" before its extension |
| Planner.RunLists | nps_renamer.py:188-216 | `unhandled_files` and `move_files` list the unmatched files and the placed files that change place, in glob order |
| Planner.UnhandledMember | nps_renamer.py:188-190 | a path is unhandled exactly when a file with that path found no entry |
| Planner.MovesMember | nps_renamer.py:215-216 | a move is listed exactly when a placed file changes place to that destination |
| Planner.Listed | nps_renamer.py:176-216 | for distinct paths, each file is unhandled or moved exactly as its own outcome says |
| Planner.CounterSuffixClean | nps_renamer.py:207 | the counter text " (n).pkg" has no upper-case letter and no ']' |
| Planner.DestLower | nps_renamer.py:203-208 | a lower-cased destination is its key with the counter tag in place of ".pkg" |
| Planner.TaggedInjective | nps_renamer.py:203-208 | different (key, counter) pairs never give the same lower-cased destination |
| Planner.GlobbedExt | nps_renamer.py:159 | every name `*.pkg` finds has the extension ".pkg" |
| Planner.PlacedShaped | nps_renamer.py:197-199 | a placed package's destination name is a stem ending in ']' plus ".pkg" |
| Planner.SameDestSameKey | nps_renamer.py:203-208 | equal lower-cased destinations mean equal keys and counters |
| Planner.CountedDistinct | nps_renamer.py:203-211 | two placements counted in order never share a lower-cased destination |
| Planner.DestinationsDistinct | nps_renamer.py:176-211 | no two placed packages of a run share a destination, even up to case |
| Planner.MovesOfDistinct | nps_renamer.py:215-216 | a move list built from outcomes with distinct destinations has distinct destinations |
| Planner.MovesDistinct | nps_renamer.py:176-216 | `move_files` never sends two packages to the same path, even up to case |
| Program.PlanRenames | nps_renamer.py:123-216 | `main` up to the transfer loop: loading, then planning, the first failure ending the run |
| Program.HeaderNeverMatched | nps_renamer.py:104-113 | the entry made of a header row never satisfies the filename predicate for a recognised name, nor the hash predicate for a 64-character digest |

## Left out

- File-system access is not modelled: globbing, opening and reading files, the
  tab-separated CSV reader, UTF-8 decoding, `makedirs`, and `OSError` and `shutil`
  errors. The catalog files arrive as paths with rows of cells, and the packages as
  paths with their first bytes and SHA-256 digest.
- The SHA-256 computation (`sha256sum` and its two variants) is not modelled. Each
  package's hex digest is an input; the model never reads a digest it does not need.
- The transfer loop is not modelled: the copy or move of each planned pair, the dry
  run, and re-raising a `shutil.Error`. `print` output, argument parsing and exit
  codes are also left out.
- Program.PlanRenames: the "no .pkg files found" and "nothing to do" early returns are
  not distinguished; both yield a plan whose move list is empty.
- Naming.Sanitize: NFC normalisation is taken as the identity. Strings are code-point
  sequences with no Unicode tables.
- Text.Lower: only ASCII A-Z are lower-cased; Python's full Unicode `str.lower` is
  not modelled.
- PkgName.Parse: `[A-Z]`, `\d` and the `re.I` flag are modelled on ASCII only.
  Python also matches Unicode digits and case-folds a few non-ASCII letters.
- Paths: only POSIX path rules are modelled, not Windows drive letters or backslashes.
- Loader.LoadCatalog: takes the name-to-console table as a parameter;
  `Program.PlanRenames` passes the fixed table.
- Catalog.RowVal, Matching.PredicateHash and Planner.Decide carry no `ensures` of
  their own. Catalog.RowValSpec states what `row_val` returns. Matching.MatchEntry and
  Program.HeaderNeverMatched state what the hash predicate decides. For each file of
  a run, Planner.DecideErr, Planner.Classified, Planner.PlacedCount and
  Planner.DupeSuffix state what the loop body decides.
- Planner.DestinationsDistinct and Planner.MovesDistinct: proved for package base
  names that do not start with '.' and end in ".pkg". That is what the `*.pkg` glob
  returns, since `*` does not match a leading dot.
- Planner.Listed: assumes the glob returns each path once.
- The sort's stability is not modelled; files with equal paths do not occur in one
  directory.
- The code has no matching tier on a package's header and size, and does not skip a
  destination that already exists; the model has neither.
