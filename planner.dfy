/**
 * Planning the moves (nps_renamer.py lines 157-216). The loop checks each
 * package the glob found for the magic number and matches it against the
 * catalog. A matched package gets the destination
 * `base/console/type/<sanitized file name>`. When an earlier package of the
 * same run already claimed that destination, up to case, the file name gets
 * " (n)" before its extension. The result is the list of (source,
 * destination) moves and the list of packages no catalog entry matched.
 */
module Planner {
  import opened Wrappers
  import opened Text
  import opened Paths
  import opened Catalog
  import opened Naming
  import opened Matching
  import opened Magic

  /** One file the glob found: its path, its first bytes and its SHA-256 digest in hex. */
  datatype PkgFile = PkgFile(path: string, head: seq<Byte>, digest: string)

  /** What the planning loop does with one file. */
  datatype Outcome =
    | NotPkg                                         // `is_pkg` is false: skipped
    | Unmatched                                      // no entry matched: listed as unhandled
    | Placed(dir: string, file: string, key: string, count: nat, dest: string)
      // `dest_dir`, `dest_file`, `dest_path_lower`, the counter the file got, and the final `dest_path`

  /** `is_pkg` raised: the file is shorter than four bytes, and `struct.unpack` fails. */
  datatype PlanError = ShortHeader(path: string)

  /** The loop's accumulators: `dupe_paths`, `move_files` and `unhandled_files`. */
  datatype Plan = Plan(dupes: map<string, nat>, moves: seq<(string, string)>, unhandled: seq<string>)

  /** `--copy-dir` when it is given and not empty, otherwise `--pkg-dir`. */
  function DestBase(pkgDir: string, copyDir: string): (r: string)
    ensures copyDir != "" ==> r == copyDir
    ensures copyDir == "" ==> r == pkgDir
  {
    if copyDir != "" then copyDir else pkgDir
  }

  /** The key of `dupe_paths`: the unrenamed destination, lower-cased. */
  function Key(dir: string, file: string): string {
    Lower(Join(dir, file))
  }

  /** The renamed destination: " (n)" between the file's root and its extension. */
  function Renamed(dir: string, file: string, n: nat): string {
    var parts := SplitExt(file);
    Join(dir, parts.0 + " (" + NatToString(n) + ")" + parts.1)
  }

  /** Where a placed file goes: the plain destination for counter 0, the renamed one after. */
  function DestFor(dir: string, file: string, n: nat): string {
    if n == 0 then Join(dir, file) else Renamed(dir, file, n)
  }

  /**
   * The loop body for one file, given the duplicate counters so far. A file
   * too short for `is_pkg` stops the run. A file without the magic number is
   * skipped. A package no entry matches is unhandled. A matched package
   * goes to its entry's directory under `base`, under the entry's sanitized
   * file name with the package's own extension. It gets counter 0 the first
   * time its key is seen, and one more than the stored counter after that.
   */
  function Decide(entries: seq<Entry>, base: string, dupes: map<string, nat>, f: PkgFile): Result<Outcome, PlanError>
  {
    match IsPkg(f.head)
    case None => Err(ShortHeader(f.path))
    case Some(isPkg) =>
      if !isPkg then Ok(NotPkg)
      else match MatchEntry(entries, f.path, f.digest)
        case None => Ok(Unmatched)
        case Some(i) =>
          var e := entries[i];
          var dir := Join(base, DirPath(e.info));
          var file := Sanitize(FileName(e, SplitExt(f.path).1));
          var key := Key(dir, file);
          var n := if key in dupes then dupes[key] + 1 else 0;
          Ok(Placed(dir, file, key, n, DestFor(dir, file, n)))
  }

  /** The loop body fails exactly on a file shorter than four bytes. */
  lemma DecideErr(entries: seq<Entry>, base: string, dupes: map<string, nat>, f: PkgFile)
    ensures Decide(entries, base, dupes, f).Err? <==> |f.head| < 4
    ensures Decide(entries, base, dupes, f).Err? ==> Decide(entries, base, dupes, f).error == ShortHeader(f.path)
  {
  }

  /** What the loop body decides, case by case. */
  lemma DecideSpec(entries: seq<Entry>, base: string, dupes: map<string, nat>, f: PkgFile)
    ensures var d := Decide(entries, base, dupes, f);
      var m := MatchEntry(entries, f.path, f.digest);
      && (d.Err? <==> |f.head| < 4)
      && (d.Err? ==> d.error == ShortHeader(f.path))
      && (d.Ok? && d.value.NotPkg? <==> IsPkg(f.head) == Some(false))
      && (d.Ok? && d.value.Unmatched? <==> IsPkg(f.head) == Some(true) && m.None?)
      && (d.Ok? && d.value.Placed? <==> IsPkg(f.head) == Some(true) && m.Some?)
      && (d.Ok? && d.value.Placed? ==>
            var o := d.value;
            && o.dir == Join(base, DirPath(entries[m.value].info))
            && o.file == Sanitize(FileName(entries[m.value], SplitExt(f.path).1))
            && o.key == Key(o.dir, o.file)
            && (o.key !in dupes ==> o.count == 0)
            && (o.key in dupes ==> o.count == dupes[o.key] + 1)
            && o.dest == DestFor(o.dir, o.file, o.count))
  {
  }

  /** The accumulators after one outcome: a move is recorded only when the file would change place. */
  function Apply(p: Plan, f: PkgFile, o: Outcome): Plan {
    match o
    case NotPkg => p
    case Unmatched => p.(unhandled := p.unhandled + [f.path])
    case Placed(_, _, key, n, dest) =>
      p.(dupes := p.dupes[key := n],
         moves := if f.path != dest then p.moves + [(f.path, dest)] else p.moves)
  }

  /** The accumulators after a run, with the outcome of every file in order. */
  datatype Trace = Trace(plan: Plan, outcomes: seq<Outcome>)

  /** The planning loop over `fs`, as a specification. */
  function Run(entries: seq<Entry>, base: string, fs: seq<PkgFile>): (r: Result<Trace, PlanError>)
    ensures r.Ok? ==> |r.value.outcomes| == |fs|
  {
    if fs == [] then Ok(Trace(Plan(map[], [], []), []))
    else match Run(entries, base, fs[..|fs| - 1])
      case Err(e) => Err(e)
      case Ok(t) =>
        match Decide(entries, base, t.plan.dupes, fs[|fs| - 1])
        case Err(e) => Err(e)
        case Ok(o) => Ok(Trace(Apply(t.plan, fs[|fs| - 1], o), t.outcomes + [o]))
  }

  /** What planning yields for the given directories. */
  function PlanSpec(entries: seq<Entry>, pkgDir: string, copyDir: string, fs: seq<PkgFile>): Result<Plan, PlanError> {
    match Run(entries, DestBase(pkgDir, copyDir), fs)
    case Err(e) => Err(e)
    case Ok(t) => Ok(t.plan)
  }

  lemma {:induction false} RunErrSticky(entries: seq<Entry>, base: string, fs: seq<PkgFile>, m: nat)
    requires m <= |fs| && Run(entries, base, fs[..m]).Err?
    ensures Run(entries, base, fs) == Run(entries, base, fs[..m])
    decreases |fs| - m
  {
    if m < |fs| {
      assert fs[..|fs| - 1][..m] == fs[..m];
      RunErrSticky(entries, base, fs[..|fs| - 1], m);
      assert fs[..|fs|] == fs;
    } else {
      assert fs[..m] == fs;
    }
  }

  /** One more file: the run over `fs[..i + 1]` is the run over `fs[..i]` and the decision for `fs[i]`. */
  lemma RunSnoc(entries: seq<Entry>, base: string, fs: seq<PkgFile>, i: nat)
    requires i < |fs| && Run(entries, base, fs[..i]).Ok?
    ensures var t := Run(entries, base, fs[..i]).value;
      Run(entries, base, fs[..i + 1]) ==
        match Decide(entries, base, t.plan.dupes, fs[i])
        case Err(e) => Err(e)
        case Ok(o) => Ok(Trace(Apply(t.plan, fs[i], o), t.outcomes + [o]))
  {
    assert fs[..i + 1][..i] == fs[..i];
  }

  /** A successful run over a non-empty list: the run over all but the last file, then the last decision. */
  lemma RunStep(entries: seq<Entry>, base: string, fs: seq<PkgFile>)
    requires fs != [] && Run(entries, base, fs).Ok?
    ensures var init := fs[..|fs| - 1];
      && Run(entries, base, init).Ok?
      && Decide(entries, base, Run(entries, base, init).value.plan.dupes, fs[|fs| - 1]).Ok?
    ensures var init := fs[..|fs| - 1];
      var t0 := Run(entries, base, init).value;
      var o := Decide(entries, base, t0.plan.dupes, fs[|fs| - 1]).value;
      Run(entries, base, fs).value == Trace(Apply(t0.plan, fs[|fs| - 1], o), t0.outcomes + [o])
  {
  }

  /**
   * The planning loop (lines 175-216): `dupe_paths`, `move_files` and
   * `unhandled_files` built up file by file.
   */
  method PlanMoves(entries: seq<Entry>, pkgDir: string, copyDir: string, pkgFiles: seq<PkgFile>)
    returns (r: Result<Plan, PlanError>)
    ensures r == PlanSpec(entries, pkgDir, copyDir, pkgFiles)
  {
    var dupes: map<string, nat> := map[];
    var moves: seq<(string, string)> := [];
    var unhandled: seq<string> := [];
    ghost var base := DestBase(pkgDir, copyDir);
    for i := 0 to |pkgFiles|
      invariant Run(entries, base, pkgFiles[..i]).Ok?
      invariant Run(entries, base, pkgFiles[..i]).value.plan == Plan(dupes, moves, unhandled)
    {
      var f := pkgFiles[i];
      ghost var before := Plan(dupes, moves, unhandled);
      RunSnoc(entries, base, pkgFiles, i);
      DecideSpec(entries, base, dupes, f);
      var magic := IsPkg(f.head);
      if magic.None? {
        RunErrSticky(entries, base, pkgFiles, i + 1);
        assert pkgFiles[..|pkgFiles|] == pkgFiles;
        return Err(ShortHeader(f.path));
      }
      if !magic.value {
        assert Decide(entries, base, dupes, f) == Ok(NotPkg);
        continue;
      }
      var found := MatchEntry(entries, f.path, f.digest);
      if found.None? {
        assert Decide(entries, base, dupes, f) == Ok(Unmatched);
        unhandled := unhandled + [f.path];
        assert Plan(dupes, moves, unhandled) == Apply(before, f, Unmatched);
        continue;
      }
      var e := entries[found.value];
      var destDir;
      if copyDir != "" {
        destDir := Join(copyDir, DirPath(e.info));
      } else {
        destDir := Join(pkgDir, DirPath(e.info));
      }
      var pkgExt := SplitExt(f.path).1;
      var destFile := FileName(e, pkgExt);
      destFile := Sanitize(destFile);
      var destPath := Join(destDir, destFile);
      var destPathLower := Lower(destPath);
      ghost var n: nat := if destPathLower in dupes then dupes[destPathLower] + 1 else 0;
      ghost var o := Placed(destDir, destFile, destPathLower, n, DestFor(destDir, destFile, n));
      assert Decide(entries, base, dupes, f) == Ok(o);
      if destPathLower in dupes {
        dupes := dupes[destPathLower := dupes[destPathLower] + 1];
        var parts := SplitExt(destFile);
        destPath := Join(destDir, parts.0 + " (" + NatToString(dupes[destPathLower]) + ")" + parts.1);
      } else {
        dupes := dupes[destPathLower := 0];
      }
      assert destPath == o.dest;
      if f.path != destPath {
        moves := moves + [(f.path, destPath)];
      }
      assert Plan(dupes, moves, unhandled) == Apply(before, f, o);
    }
    assert pkgFiles[..|pkgFiles|] == pkgFiles;
    return Ok(Plan(dupes, moves, unhandled));
  }

  // ---------------------------------------------------------------------------
  // What the run decides for each file

  /** The run over a prefix of the files succeeds and yields the first outcomes. */
  lemma {:induction false} RunPrefix(entries: seq<Entry>, base: string, fs: seq<PkgFile>, m: nat)
    requires Run(entries, base, fs).Ok? && m <= |fs|
    ensures Run(entries, base, fs[..m]).Ok?
    ensures Run(entries, base, fs[..m]).value.outcomes == Run(entries, base, fs).value.outcomes[..m]
    decreases |fs| - m
  {
    if m == |fs| {
      assert fs[..m] == fs;
    } else {
      var init := fs[..|fs| - 1];
      assert init[..m] == fs[..m];
      RunInit(entries, base, fs);
      RunPrefix(entries, base, init, m);
      var os := Run(entries, base, fs).value.outcomes;
      assert os[..|fs| - 1][..m] == os[..m];
    }
  }

  /** Dropping the last file leaves a successful run whose outcomes are all but the last one. */
  lemma RunInit(entries: seq<Entry>, base: string, fs: seq<PkgFile>)
    requires fs != [] && Run(entries, base, fs).Ok?
    ensures Run(entries, base, fs[..|fs| - 1]).Ok?
    ensures Run(entries, base, fs[..|fs| - 1]).value.outcomes == Run(entries, base, fs).value.outcomes[..|fs| - 1]
  {
    RunStep(entries, base, fs);
    var os0 := Run(entries, base, fs[..|fs| - 1]).value.outcomes;
    var o := Decide(entries, base, Run(entries, base, fs[..|fs| - 1]).value.plan.dupes, fs[|fs| - 1]).value;
    assert (os0 + [o])[..|os0|] == os0;
  }

  /** Each outcome is the loop body's decision with the counters of the files before it. */
  lemma OutcomeAt(entries: seq<Entry>, base: string, fs: seq<PkgFile>, i: nat)
    requires Run(entries, base, fs).Ok? && i < |fs|
    ensures Run(entries, base, fs[..i]).Ok?
    ensures var d := Decide(entries, base, Run(entries, base, fs[..i]).value.plan.dupes, fs[i]);
      d.Ok? && Run(entries, base, fs).value.outcomes[i] == d.value
  {
    RunPrefix(entries, base, fs, i);
    RunPrefix(entries, base, fs, i + 1);
    RunSnoc(entries, base, fs, i);
  }

  /**
   * What happens to each file of a successful run: it is skipped exactly when
   * it lacks the magic number, and unhandled exactly when it has it and no
   * entry matches. Otherwise it is placed under the matched entry's
   * directory, with the entry's sanitized file name and the file's own
   * extension.
   */
  lemma Classified(entries: seq<Entry>, base: string, fs: seq<PkgFile>, i: nat)
    requires Run(entries, base, fs).Ok? && i < |fs|
    ensures var o := Run(entries, base, fs).value.outcomes[i];
      var f := fs[i];
      var m := MatchEntry(entries, f.path, f.digest);
      && (o.NotPkg? <==> IsPkg(f.head) == Some(false))
      && (o.Unmatched? <==> IsPkg(f.head) == Some(true) && m.None?)
      && (o.Placed? <==> IsPkg(f.head) == Some(true) && m.Some?)
      && (o.Placed? ==>
            && o.dir == Join(base, DirPath(entries[m.value].info))
            && o.file == Sanitize(FileName(entries[m.value], SplitExt(f.path).1))
            && o.key == Key(o.dir, o.file)
            && o.dest == DestFor(o.dir, o.file, o.count))
  {
    OutcomeAt(entries, base, fs, i);
    DecideSpec(entries, base, Run(entries, base, fs[..i]).value.plan.dupes, fs[i]);
  }

  /** The run over a non-empty list goes through exactly when the run over all but its last file does and that file has four bytes. */
  lemma RunLast(entries: seq<Entry>, base: string, fs: seq<PkgFile>)
    requires fs != []
    ensures Run(entries, base, fs).Ok? <==> Run(entries, base, fs[..|fs| - 1]).Ok? && |fs[|fs| - 1].head| >= 4
  {
    var init := fs[..|fs| - 1];
    if Run(entries, base, init).Ok? {
      DecideErr(entries, base, Run(entries, base, init).value.plan.dupes, fs[|fs| - 1]);
    }
  }

  /** Every file has the four bytes `is_pkg` unpacks. */
  predicate Headed(fs: seq<PkgFile>) {
    forall i :: 0 <= i < |fs| ==> |fs[i].head| >= 4
  }

  lemma HeadedLast(fs: seq<PkgFile>)
    requires fs != []
    ensures Headed(fs) <==> Headed(fs[..|fs| - 1]) && |fs[|fs| - 1].head| >= 4
  {
    var init := fs[..|fs| - 1];
    assert forall i :: 0 <= i < |init| ==> init[i] == fs[i];
  }

  /** A run stops exactly when some file is shorter than four bytes. */
  lemma {:induction false} RunOk(entries: seq<Entry>, base: string, fs: seq<PkgFile>)
    ensures Run(entries, base, fs).Ok? <==> Headed(fs)
  {
    if fs == [] {
      assert Run(entries, base, fs).Ok?;
    } else {
      RunOk(entries, base, fs[..|fs| - 1]);
      RunLast(entries, base, fs);
      HeadedLast(fs);
    }
  }

  /** A run that stops reports the first file shorter than four bytes. */
  lemma {:induction false} RunStopsAtFirst(entries: seq<Entry>, base: string, fs: seq<PkgFile>) returns (i: nat)
    requires Run(entries, base, fs).Err?
    ensures i < |fs| && |fs[i].head| < 4 && Run(entries, base, fs).error == ShortHeader(fs[i].path)
    ensures forall j :: 0 <= j < i ==> |fs[j].head| >= 4
  {
    var init := fs[..|fs| - 1];
    assert forall j :: 0 <= j < |init| ==> init[j] == fs[j];
    if Run(entries, base, init).Err? {
      i := RunStopsAtFirst(entries, base, init);
    } else {
      i := |fs| - 1;
      RunOk(entries, base, init);
      DecideErr(entries, base, Run(entries, base, init).value.plan.dupes, fs[i]);
    }
  }

  // ---------------------------------------------------------------------------
  // The duplicate counters

  /** How many of the outcomes placed a file under key `k`. */
  function CountKey(os: seq<Outcome>, k: string): nat {
    if os == [] then 0
    else
      var o := os[|os| - 1];
      CountKey(os[..|os| - 1], k) + if o.Placed? && o.key == k then 1 else 0
  }

  /** Counting over a longer prefix never gives less. */
  lemma {:induction false} CountKeyMonotone(os: seq<Outcome>, k: string, m: nat, n: nat)
    requires m <= n <= |os|
    ensures CountKey(os[..m], k) <= CountKey(os[..n], k)
    decreases n - m
  {
    if m < n {
      CountKeyMonotone(os, k, m, n - 1);
      assert os[..n][..n - 1] == os[..n - 1];
    }
  }

  /**
   * After a run, `dupe_paths` holds exactly the keys some placed file had,
   * each with one less than the number of files placed under it.
   */
  lemma {:induction false} RunDupes(entries: seq<Entry>, base: string, fs: seq<PkgFile>, k: string)
    requires Run(entries, base, fs).Ok?
    ensures var t := Run(entries, base, fs).value;
      && (k in t.plan.dupes <==> CountKey(t.outcomes, k) > 0)
      && (k in t.plan.dupes ==> t.plan.dupes[k] + 1 == CountKey(t.outcomes, k))
  {
    if fs != [] {
      var init := fs[..|fs| - 1];
      RunDupes(entries, base, init, k);
      RunStep(entries, base, fs);
      var t0 := Run(entries, base, init).value;
      var f := fs[|fs| - 1];
      DecideCount(entries, base, t0.plan.dupes, f);
      DupesStep(t0.plan, t0.outcomes, f, Decide(entries, base, t0.plan.dupes, f).value, k);
    }
  }

  /** A placed file's counter: one more than the stored counter of its key, or 0 for a new key. */
  lemma DecideCount(entries: seq<Entry>, base: string, dupes: map<string, nat>, f: PkgFile)
    ensures var d := Decide(entries, base, dupes, f);
      d.Ok? && d.value.Placed? ==>
        && (d.value.key in dupes ==> d.value.count == dupes[d.value.key] + 1)
        && (d.value.key !in dupes ==> d.value.count == 0)
  {
  }

  /** One outcome keeps `dupe_paths` in step with the count of placed files per key. */
  lemma DupesStep(p: Plan, os: seq<Outcome>, f: PkgFile, o: Outcome, k: string)
    requires k in p.dupes <==> CountKey(os, k) > 0
    requires k in p.dupes ==> p.dupes[k] + 1 == CountKey(os, k)
    requires o.Placed? && o.key in p.dupes ==> o.count == p.dupes[o.key] + 1
    requires o.Placed? && o.key !in p.dupes ==> o.count == 0
    ensures var q := Apply(p, f, o);
      && (k in q.dupes <==> CountKey(os + [o], k) > 0)
      && (k in q.dupes ==> q.dupes[k] + 1 == CountKey(os + [o], k))
  {
    assert (os + [o])[..|os|] == os;
  }

  /**
   * The counter a placed file gets is the number of files placed under the
   * same key before it: 0 for the first, then 1, 2, ...
   */
  lemma PlacedCount(entries: seq<Entry>, base: string, fs: seq<PkgFile>, i: nat)
    requires Run(entries, base, fs).Ok? && i < |fs|
    ensures var os := Run(entries, base, fs).value.outcomes;
      os[i].Placed? ==> os[i].count == CountKey(os[..i], os[i].key)
  {
    OutcomeAt(entries, base, fs, i);
    RunPrefix(entries, base, fs, i);
    DecideCount(entries, base, Run(entries, base, fs[..i]).value.plan.dupes, fs[i]);
    var os := Run(entries, base, fs).value.outcomes;
    if os[i].Placed? {
      RunDupes(entries, base, fs[..i], os[i].key);
    }
  }

  /**
   * The duplicate rule (lines 203-211): a placed file that `k` earlier files
   * share its key with gets counter `k`. It keeps the plain destination when
   * `k` is 0. Otherwise " (k)" goes between its file name's root and extension.
   */
  lemma DupeSuffix(entries: seq<Entry>, base: string, fs: seq<PkgFile>, i: nat)
    requires Run(entries, base, fs).Ok? && i < |fs|
    requires Run(entries, base, fs).value.outcomes[i].Placed?
    ensures var os := Run(entries, base, fs).value.outcomes;
      var o := os[i];
      var k := CountKey(os[..i], o.key);
      var parts := SplitExt(o.file);
      && o.key == Lower(Join(o.dir, o.file))
      && o.count == k
      && (k == 0 ==> o.dest == Join(o.dir, o.file))
      && (k > 0 ==> o.dest == Join(o.dir, parts.0 + " (" + NatToString(k) + ")" + parts.1))
  {
    Classified(entries, base, fs, i);
    PlacedCount(entries, base, fs, i);
  }

  // ---------------------------------------------------------------------------
  // The two lists

  /** The paths of the unmatched files, in input order. */
  function UnhandledOf(fs: seq<PkgFile>, os: seq<Outcome>): seq<string>
    requires |fs| == |os|
  {
    if fs == [] then []
    else
      UnhandledOf(fs[..|fs| - 1], os[..|os| - 1]) + if os[|os| - 1].Unmatched? then [fs[|fs| - 1].path] else []
  }

  /** A (source, destination) pair for each placed file whose destination differs from its path, in input order. */
  function MovesOf(fs: seq<PkgFile>, os: seq<Outcome>): seq<(string, string)>
    requires |fs| == |os|
  {
    if fs == [] then []
    else
      var o := os[|os| - 1];
      var p := fs[|fs| - 1].path;
      MovesOf(fs[..|fs| - 1], os[..|os| - 1]) + if o.Placed? && p != o.dest then [(p, o.dest)] else []
  }

  /** The run's lists are the unmatched files and the real moves, each in input order. */
  lemma {:induction false} RunLists(entries: seq<Entry>, base: string, fs: seq<PkgFile>)
    requires Run(entries, base, fs).Ok?
    ensures var t := Run(entries, base, fs).value;
      && t.plan.unhandled == UnhandledOf(fs, t.outcomes)
      && t.plan.moves == MovesOf(fs, t.outcomes)
  {
    if fs != [] {
      var init := fs[..|fs| - 1];
      RunLists(entries, base, init);
      RunStep(entries, base, fs);
      var t := Run(entries, base, fs).value;
      var t0 := Run(entries, base, init).value;
      assert t.outcomes[..|fs| - 1] == t0.outcomes;
    }
  }

  /** A path is listed as unhandled exactly when a file with that path found no entry. */
  lemma {:induction false} UnhandledMember(fs: seq<PkgFile>, os: seq<Outcome>, p: string)
    requires |fs| == |os|
    ensures p in UnhandledOf(fs, os) <==> exists i :: 0 <= i < |fs| && os[i].Unmatched? && fs[i].path == p
  {
    if fs != [] {
      var n := |fs| - 1;
      UnhandledMember(fs[..n], os[..n], p);
      assert forall i :: 0 <= i < n ==> fs[..n][i] == fs[i] && os[..n][i] == os[i];
    }
  }

  /** A pair is a move exactly when a placed file has it as its path and a different destination. */
  lemma {:induction false} MovesMember(fs: seq<PkgFile>, os: seq<Outcome>, m: (string, string))
    requires |fs| == |os|
    ensures m in MovesOf(fs, os) <==>
      exists i :: 0 <= i < |fs| && os[i].Placed? && fs[i].path != os[i].dest && m == (fs[i].path, os[i].dest)
  {
    if fs != [] {
      var n := |fs| - 1;
      MovesMember(fs[..n], os[..n], m);
      assert forall i :: 0 <= i < n ==> fs[..n][i] == fs[i] && os[..n][i] == os[i];
    }
  }

  /**
   * With distinct paths, as the glob returns them: a file is unhandled exactly
   * when no entry matched it, and is the source of a move exactly when it was
   * placed somewhere other than where it is. A file skipped for its magic
   * number is in neither list.
   */
  lemma Listed(entries: seq<Entry>, base: string, fs: seq<PkgFile>, i: nat)
    requires Run(entries, base, fs).Ok? && i < |fs|
    requires forall a, b :: 0 <= a < b < |fs| ==> fs[a].path != fs[b].path
    ensures var t := Run(entries, base, fs).value;
      var o := t.outcomes[i];
      && (fs[i].path in t.plan.unhandled <==> o.Unmatched?)
      && ((exists m :: m in t.plan.moves && m.0 == fs[i].path) <==> o.Placed? && fs[i].path != o.dest)
      && (o.Placed? && fs[i].path != o.dest ==> (fs[i].path, o.dest) in t.plan.moves)
  {
    var t := Run(entries, base, fs).value;
    var os := t.outcomes;
    RunLists(entries, base, fs);
    UnhandledMember(fs, os, fs[i].path);
    if os[i].Placed? && fs[i].path != os[i].dest {
      MovesMember(fs, os, (fs[i].path, os[i].dest));
    }
    forall m | m in t.plan.moves && m.0 == fs[i].path
      ensures os[i].Placed? && fs[i].path != os[i].dest
    {
      MovesMember(fs, os, m);
      var j :| 0 <= j < |fs| && os[j].Placed? && fs[j].path != os[j].dest && m == (fs[j].path, os[j].dest);
      assert j == i;
    }
  }

  // ---------------------------------------------------------------------------
  // Destinations never collide

  /** What a counter `n` puts in place of ".pkg": " (n).pkg". */
  function CounterSuffix(n: nat): (t: string)
    ensures |t| == |NatToString(n)| + 7
    ensures t[2..|t| - 5] == NatToString(n) && t[|t| - 5] == ')'
  {
    " (" + NatToString(n) + ").pkg"
  }

  /** " (n).pkg" holds no upper-case letter and no ']'. */
  lemma CounterSuffixClean(n: nat)
    ensures Lower(CounterSuffix(n)) == CounterSuffix(n)
    ensures forall i :: 0 <= i < |CounterSuffix(n)| ==> CounterSuffix(n)[i] != ']'
  {
    var d := NatToString(n);
    var t := CounterSuffix(n);
    forall i | 0 <= i < |t|
      ensures !('A' <= t[i] <= 'Z') && t[i] != ']'
    {
      if 2 <= i < 2 + |d| {
        assert t[i] == d[i - 2];
      }
    }
    LowerFixed(t);
  }

  /** A key with " (n)" before its final ".pkg"; counter 0 leaves it alone. */
  function Tagged(k: string, n: nat): string
    requires |k| >= 4
  {
    if n == 0 then k else k[..|k| - 4] + CounterSuffix(n)
  }

  /** `s` ends in "].pkg". */
  predicate BracketPkg(s: string) {
    |s| >= 5 && s[|s| - 5..] == "].pkg"
  }

  /** The shape of the sanitized file name of an entry whose package has the extension ".pkg". */
  predicate PkgShaped(file: string) {
    BracketPkg(file) && '/' !in file
  }

  /** Renaming a name "stem.pkg" puts " (n).pkg" after the stem. */
  lemma RenamedPkg(dir: string, stem: string, n: nat)
    requires stem != [] && stem[0] != '/' && SplitExt(stem + ".pkg") == (stem, ".pkg")
    ensures Renamed(dir, stem + ".pkg", n) == JoinPrefix(dir) + stem + CounterSuffix(n)
  {
    var b := stem + " (" + NatToString(n) + ")" + ".pkg";
    assert b == stem + CounterSuffix(n);
    JoinRelative(dir, b);
  }

  /** For a file name of that shape the key is the lower-cased stem, ending in ']', plus ".pkg". */
  lemma KeyOfPkg(dir: string, file: string)
    requires PkgShaped(file)
    ensures var pre := JoinPrefix(dir) + file[..|file| - 4];
      && Key(dir, file) == Lower(pre) + ".pkg"
      && Lower(pre)[|pre| - 1] == ']'
  {
    var stem := file[..|file| - 4];
    assert file == stem + ".pkg";
    assert stem[|stem| - 1] == ']';
    JoinRelative(dir, file);
    var pre := JoinPrefix(dir) + stem;
    assert Join(dir, file) == pre + ".pkg";
    LowerAppend(pre, ".pkg");
    LowerFixed(".pkg");
  }

  /** The renamed destination of such a file, lower-cased, is the key with " (n)" before ".pkg". */
  lemma RenamedLower(dir: string, file: string, n: nat)
    requires PkgShaped(file) && n > 0
    ensures Lower(Renamed(dir, file, n)) == Lower(JoinPrefix(dir) + file[..|file| - 4]) + CounterSuffix(n)
  {
    var stem := file[..|file| - 4];
    assert file == stem + ".pkg";
    assert stem[|stem| - 1] == ']';
    assert '/' !in stem;
    SplitExtPkg(stem);
    RenamedPkg(dir, stem, n);
    LowerAppend(JoinPrefix(dir) + stem, CounterSuffix(n));
    CounterSuffixClean(n);
  }

  /**
   * For a file name of that shape the key ends in "].pkg", and the lower-cased
   * destination is the key tagged with the file's counter.
   */
  lemma DestLower(dir: string, file: string, n: nat)
    requires PkgShaped(file)
    ensures BracketPkg(Key(dir, file))
    ensures Lower(DestFor(dir, file, n)) == Tagged(Key(dir, file), n)
  {
    var pre := JoinPrefix(dir) + file[..|file| - 4];
    KeyOfPkg(dir, file);
    TagStem(Lower(pre), n);
    if n > 0 {
      RenamedLower(dir, file, n);
    }
  }

  /** A stem ending in ']' plus ".pkg" ends in "].pkg", and tagging it puts " (n)" after the stem. */
  lemma TagStem(stem: string, n: nat)
    requires stem != [] && stem[|stem| - 1] == ']'
    ensures BracketPkg(stem + ".pkg")
    ensures Tagged(stem + ".pkg", n) == if n == 0 then stem + ".pkg" else stem + CounterSuffix(n)
  {
    var k := stem + ".pkg";
    assert k[|k| - 5..] == "].pkg";
    assert k[..|k| - 4] == stem;
  }

  /** The last ']' of `p + t` is the one `p` ends with when `t` has none. */
  lemma LastBracket(p: string, t: string)
    requires p != [] && p[|p| - 1] == ']'
    requires forall i :: 0 <= i < |t| ==> t[i] != ']'
    ensures LastIndexOf(p + t, ']') == |p| - 1
  {
    var s := p + t;
    assert s[|p| - 1] == ']';
    assert forall i :: |p| <= i < |s| ==> s[i] == t[i - |p|];
  }

  /** The fifth character from the end of a tagged key says whether it was tagged. */
  lemma TaggedMark(k: string, n: nat)
    requires BracketPkg(k)
    ensures var s := Tagged(k, n); |s| >= 5 && s[|s| - 5] == if n == 0 then ']' else ')'
  {
    if n == 0 {
      assert k[|k| - 5] == k[|k| - 5..][0];
    } else {
      var t := CounterSuffix(n);
      var s := k[..|k| - 4] + t;
      assert s[|s| - 5] == t[|t| - 5];
    }
  }

  /** Tagging keys that end in "].pkg" loses nothing: equal tagged keys have equal keys and counters. */
  lemma TaggedInjective(k1: string, n1: nat, k2: string, n2: nat)
    requires BracketPkg(k1) && BracketPkg(k2)
    requires Tagged(k1, n1) == Tagged(k2, n2)
    ensures k1 == k2 && n1 == n2
  {
    TaggedMark(k1, n1);
    TaggedMark(k2, n2);
    if n1 != 0 && n2 != 0 {
      var p1, p2 := k1[..|k1| - 4], k2[..|k2| - 4];
      BracketPkgSplit(k1);
      BracketPkgSplit(k2);
      CounterSuffixClean(n1);
      CounterSuffixClean(n2);
      SplitAtBracket(p1, CounterSuffix(n1), p2, CounterSuffix(n2));
      NatToStringInjective(n1, n2);
    }
  }

  /** A string ending in "].pkg" is a stem ending in ']' followed by ".pkg". */
  lemma BracketPkgSplit(k: string)
    requires BracketPkg(k)
    ensures k == k[..|k| - 4] + ".pkg" && k[|k| - 5] == ']'
  {
    assert k[|k| - 5] == k[|k| - 5..][0];
    assert k[|k| - 4..] == k[|k| - 5..][1..];
  }

  /** A string is cut in only one way into a part ending in ']' and a part without ']'. */
  lemma SplitAtBracket(p1: string, t1: string, p2: string, t2: string)
    requires p1 != [] && p1[|p1| - 1] == ']' && p2 != [] && p2[|p2| - 1] == ']'
    requires forall i :: 0 <= i < |t1| ==> t1[i] != ']'
    requires forall i :: 0 <= i < |t2| ==> t2[i] != ']'
    requires p1 + t1 == p2 + t2
    ensures p1 == p2 && t1 == t2
  {
    var s := p1 + t1;
    LastBracket(p1, t1);
    LastBracket(p2, t2);
    assert p1 == s[..|p1|] && t1 == s[|p1|..];
    assert p2 == s[..|p2|] && t2 == s[|p2|..];
  }

  /**
   * A path the recursive glob for `*.pkg` can return: `*` does not match a leading dot,
   * so the base name is a name that does not start with '.', then ".pkg".
   */
  predicate GlobbedName(path: string) {
    var b := Basename(path);
    |b| >= 5 && b[0] != '.' && b[|b| - 4..] == ".pkg"
  }

  /** Such a path has the extension ".pkg". */
  lemma GlobbedExt(path: string)
    requires GlobbedName(path)
    ensures SplitExt(path).1 == ".pkg"
  {
    var b := Basename(path);
    var n := |path|;
    var sep := LastIndexOf(path, '/');
    assert b == path[sep + 1..];
    assert path[n - 4..] == b[|b| - 4..];
    assert path[n - 4] == '.';
    assert forall i :: n - 4 < i < n ==> path[i] != '.';
    var dot := LastIndexOf(path, '.');
    assert dot == n - 4;
    assert path[sep + 1] == b[0];
    assert sep + 1 < dot && path[sep + 1] != '.';
  }

  /** The file name of a globbed package that is placed has the "].pkg" shape. */
  lemma PlacedShaped(entries: seq<Entry>, base: string, fs: seq<PkgFile>, i: nat)
    requires Run(entries, base, fs).Ok? && i < |fs| && GlobbedName(fs[i].path)
    requires Run(entries, base, fs).value.outcomes[i].Placed?
    ensures PkgShaped(Run(entries, base, fs).value.outcomes[i].file)
  {
    OutcomeAt(entries, base, fs, i);
    DecideFile(entries, base, Run(entries, base, fs[..i]).value.plan.dupes, fs[i]);
    GlobbedExt(fs[i].path);
    var m := MatchEntry(entries, fs[i].path, fs[i].digest);
    FileNameShaped(entries[m.value]);
  }

  /** The file name a placed package gets: the matched entry's, sanitized, with the package's extension. */
  lemma DecideFile(entries: seq<Entry>, base: string, dupes: map<string, nat>, f: PkgFile)
    ensures var d := Decide(entries, base, dupes, f);
      var m := MatchEntry(entries, f.path, f.digest);
      d.Ok? && d.value.Placed? ==> m.Some? && d.value.file == Sanitize(FileName(entries[m.value], SplitExt(f.path).1))
  {
  }

  /** An entry's sanitized file name for the extension ".pkg" has the "].pkg" shape. */
  lemma FileNameShaped(e: Entry)
    ensures PkgShaped(Sanitize(FileName(e, ".pkg")))
  {
    PkgFileNameShape(e);
    SanitizeHasNoSlash(FileName(e, ".pkg"));
  }

  /** A placed outcome whose key, destination and file name fit together as the loop builds them. */
  predicate Sound(o: Outcome) {
    o.Placed? && o.key == Key(o.dir, o.file) && o.dest == DestFor(o.dir, o.file, o.count) && PkgShaped(o.file)
  }

  /** Each placed globbed package of a run is sound, and its counter counts the earlier ones under its key. */
  lemma PlacedSound(entries: seq<Entry>, base: string, fs: seq<PkgFile>, i: nat)
    requires Run(entries, base, fs).Ok? && i < |fs| && GlobbedName(fs[i].path)
    ensures var os := Run(entries, base, fs).value.outcomes;
      os[i].Placed? ==> Sound(os[i]) && os[i].count == CountKey(os[..i], os[i].key)
  {
    var os := Run(entries, base, fs).value.outcomes;
    if os[i].Placed? {
      Classified(entries, base, fs, i);
      PlacedShaped(entries, base, fs, i);
      PlacedCount(entries, base, fs, i);
    }
  }

  /** Sound outcomes with the same lower-cased destination have the same key and counter. */
  lemma SameDestSameKey(o1: Outcome, o2: Outcome)
    requires Sound(o1) && Sound(o2) && Lower(o1.dest) == Lower(o2.dest)
    ensures o1.key == o2.key && o1.count == o2.count
  {
    DestLower(o1.dir, o1.file, o1.count);
    DestLower(o2.dir, o2.file, o2.count);
    TaggedInjective(o1.key, o1.count, o2.key, o2.count);
  }

  /** Counting past a placed outcome counts it. */
  lemma CountPast(os: seq<Outcome>, i: nat)
    requires i < |os| && os[i].Placed?
    ensures CountKey(os[..i + 1], os[i].key) == CountKey(os[..i], os[i].key) + 1
  {
    assert os[..i + 1][..i] == os[..i];
  }

  /** Two sound outcomes whose counters count the earlier ones under their keys go to different places. */
  lemma CountedDistinct(os: seq<Outcome>, i: nat, j: nat)
    requires i < j < |os| && Sound(os[i]) && Sound(os[j])
    requires os[i].count == CountKey(os[..i], os[i].key)
    requires os[j].count == CountKey(os[..j], os[j].key)
    ensures Lower(os[i].dest) != Lower(os[j].dest)
  {
    if Lower(os[i].dest) == Lower(os[j].dest) {
      SameDestSameKey(os[i], os[j]);
      CountPast(os, i);
      CountKeyMonotone(os, os[i].key, i + 1, j);
    }
  }

  /**
   * No two packages of a run are given the same destination, not even up to
   * case: a later package under an earlier one's key always gets a larger
   * counter, and the counter can be read back from the name.
   */
  lemma DestinationsDistinct(entries: seq<Entry>, base: string, fs: seq<PkgFile>, i: nat, j: nat)
    requires Run(entries, base, fs).Ok? && i < j < |fs|
    requires GlobbedName(fs[i].path) && GlobbedName(fs[j].path)
    ensures var os := Run(entries, base, fs).value.outcomes;
      os[i].Placed? && os[j].Placed? ==> Lower(os[i].dest) != Lower(os[j].dest)
  {
    var os := Run(entries, base, fs).value.outcomes;
    PlacedSound(entries, base, fs, i);
    PlacedSound(entries, base, fs, j);
    if os[i].Placed? && os[j].Placed? {
      CountedDistinct(os, i, j);
    }
  }

  /** No two moves have the same destination, not even up to case. */
  predicate DistinctDests(mv: seq<(string, string)>) {
    forall a, b :: 0 <= a < b < |mv| ==> Lower(mv[a].1) != Lower(mv[b].1)
  }

  /** Moves drawn from placements with pairwise distinct destinations have pairwise distinct destinations. */
  lemma {:induction false} MovesOfDistinct(fs: seq<PkgFile>, os: seq<Outcome>)
    requires |fs| == |os|
    requires forall i, j :: 0 <= i < j < |os| && os[i].Placed? && os[j].Placed? ==> Lower(os[i].dest) != Lower(os[j].dest)
    ensures DistinctDests(MovesOf(fs, os))
  {
    if fs != [] {
      var n := |fs| - 1;
      var prev := MovesOf(fs[..n], os[..n]);
      assert forall i :: 0 <= i < n ==> os[..n][i] == os[i];
      MovesOfDistinct(fs[..n], os[..n]);
      var o := os[n];
      if o.Placed? && fs[n].path != o.dest {
        forall a | 0 <= a < |prev|
          ensures Lower(prev[a].1) != Lower(o.dest)
        {
          MovesMember(fs[..n], os[..n], prev[a]);
          var i :| 0 <= i < n && os[..n][i].Placed? && fs[..n][i].path != os[..n][i].dest
            && prev[a] == (fs[..n][i].path, os[..n][i].dest);
        }
        AppendDistinct(prev, (fs[n].path, o.dest));
      }
    }
  }

  /** A move whose destination differs from every earlier one keeps the destinations distinct. */
  lemma AppendDistinct(mv: seq<(string, string)>, m: (string, string))
    requires DistinctDests(mv)
    requires forall a :: 0 <= a < |mv| ==> Lower(mv[a].1) != Lower(m.1)
    ensures DistinctDests(mv + [m])
  {
  }

  /** The destinations of the planned moves are pairwise distinct, even up to case. */
  lemma MovesDistinct(entries: seq<Entry>, base: string, fs: seq<PkgFile>)
    requires Run(entries, base, fs).Ok?
    requires forall i :: 0 <= i < |fs| ==> GlobbedName(fs[i].path)
    ensures DistinctDests(Run(entries, base, fs).value.plan.moves)
  {
    var os := Run(entries, base, fs).value.outcomes;
    forall i, j | 0 <= i < j < |os| && os[i].Placed? && os[j].Placed?
      ensures Lower(os[i].dest) != Lower(os[j].dest)
    {
      DestinationsDistinct(entries, base, fs, i, j);
    }
    RunLists(entries, base, fs);
    MovesOfDistinct(fs, os);
  }
}
