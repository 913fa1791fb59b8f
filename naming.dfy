/**
 * How a matched catalog entry becomes a destination: the directory
 * `console/type` (`TSVInfo.dir_path`), the file name (`TSVEntry.file_name`)
 * and the clean-up every file name goes through (`sanitize_file_name`).
 */
module Naming {
  import opened Text
  import opened Paths
  import opened Catalog

  /** `TSVInfo.dir_path`: the console and the content type joined as a relative path. */
  function DirPath(info: TsvInfo): (r: string)
    ensures (info.kind == [] || info.kind[0] != '/') ==> r == JoinPrefix(info.console) + info.kind
  {
    Join(info.console, info.kind)
  }

  /** Every console and type in the fixed table gives a two-segment path "console/type". */
  lemma TableDirPaths(file: string)
    requires file in InfoTable
    ensures var info := InfoTable[file];
      DirPath(info) == info.console + "/" + info.kind && |DirPath(info)| == 4 + |info.kind|
  {
  }

  /** The part of the file name that names the update, if the entry has one. */
  function VersionTag(e: Entry): string {
    if e.updateVersion != "" then " (" + e.updateVersion + ")" else ""
  }

  /**
   * `TSVEntry.file_name`: the entry's name, then " (update)" when the update
   * version is not empty, then " [title id]", then the extension.
   */
  function FileName(e: Entry, ext: string): (r: string)
    ensures |e.name| <= |r| && r[..|e.name|] == e.name
    ensures var tail := " [" + e.titleId + "]" + ext;
      |tail| <= |r| && r[|r| - |tail|..] == tail
    ensures e.updateVersion != "" ==> r == e.name + " (" + e.updateVersion + ") [" + e.titleId + "]" + ext
    ensures e.updateVersion == "" ==> r == e.name + " [" + e.titleId + "]" + ext
  {
    e.name + VersionTag(e) + " [" + e.titleId + "]" + ext
  }

  /** The characters `sanitize_file_name` replaces with '_'. */
  predicate Forbidden(c: char) {
    c == '<' || c == '>' || c == ':' || c == '"' || c == '/' || c == '\\' || c == '|' || c == '?' || c == '*'
  }

  /** The `re.sub` step: every forbidden character becomes '_', the others stay. */
  function ReplaceForbidden(s: string): (r: string)
    ensures |r| == |s|
    ensures forall i :: 0 <= i < |s| ==> r[i] == if Forbidden(s[i]) then '_' else s[i]
  {
    seq(|s|, i requires 0 <= i < |s| => if Forbidden(s[i]) then '_' else s[i])
  }

  lemma ReplaceForbiddenAppend(a: string, b: string)
    ensures ReplaceForbidden(a + b) == ReplaceForbidden(a) + ReplaceForbidden(b)
  {
    assert forall i :: 0 <= i < |a + b| ==>
      ReplaceForbidden(a + b)[i] == (ReplaceForbidden(a) + ReplaceForbidden(b))[i];
  }

  /**
   * `sanitize_file_name`: forbidden characters become '_' and surrounding
   * whitespace goes. The result has no forbidden character and does not start
   * or end with whitespace. It is the piece of the replaced name that starts
   * at some `lo`, and everything cut off around it is whitespace.
   */
  function Sanitize(s: string): (r: string)
    ensures forall i :: 0 <= i < |r| ==> !Forbidden(r[i])
    ensures r == [] || (!IsSpace(r[0]) && !IsSpace(r[|r| - 1]))
    ensures |r| <= |s|
    ensures exists lo :: Trimmed(ReplaceForbidden(s), lo, r)
  {
    var t := ReplaceForbidden(s);
    StripShape(t);
    var lo := |t| - |LStrip(t)|;
    TrimmedAllowed(t, lo, Strip(t));
    Strip(t)
  }

  /** A trimmed piece of a name without forbidden characters has none either. */
  lemma TrimmedAllowed(t: string, lo: nat, r: string)
    requires Trimmed(t, lo, r)
    requires forall i :: 0 <= i < |t| ==> !Forbidden(t[i])
    ensures forall i :: 0 <= i < |r| ==> !Forbidden(r[i])
    ensures |r| <= |t|
  {
    forall i | 0 <= i < |r| ensures !Forbidden(r[i]) {
      assert r[i] == t[lo + i];
    }
  }

  /** A name with no forbidden character and no whitespace at either end comes back unchanged. */
  lemma SanitizeKeepsClean(s: string)
    requires forall i :: 0 <= i < |s| ==> !Forbidden(s[i])
    requires s == [] || (!IsSpace(s[0]) && !IsSpace(s[|s| - 1]))
    ensures Sanitize(s) == s
  {
    ReplaceForbiddenClean(s);
    StripShape(s);
    TrimmedWhole(s, |s| - |LStrip(s)|, Strip(s));
  }

  lemma ReplaceForbiddenClean(s: string)
    requires forall i :: 0 <= i < |s| ==> !Forbidden(s[i])
    ensures ReplaceForbidden(s) == s
  {
  }

  /** Sanitizing an already sanitized name changes nothing. */
  lemma SanitizeIdempotent(s: string)
    ensures Sanitize(Sanitize(s)) == Sanitize(s)
  {
    SanitizeKeepsClean(Sanitize(s));
  }

  /** A sanitized name has no '/', so `os.path.join` never treats it as absolute. */
  lemma SanitizeHasNoSlash(s: string)
    ensures '/' !in Sanitize(s)
  {
  }

  /** A name that ends in "].pkg" keeps that ending, and its front is only left-stripped. */
  lemma SanitizePkg(front: string)
    ensures Sanitize(front + "].pkg") == LStrip(ReplaceForbidden(front)) + "].pkg"
  {
    var tail := "].pkg";
    ReplaceForbiddenAppend(front, tail);
    assert ReplaceForbidden(tail) == tail by {
      assert forall i :: 0 <= i < |tail| ==> !Forbidden(tail[i]);
    }
    StripPkg(ReplaceForbidden(front));
  }

  /** Stripping text that ends in "].pkg" only left-strips the text before it. */
  lemma StripPkg(t: string)
    ensures Strip(t + "].pkg") == LStrip(t) + "].pkg"
  {
    var tail := "].pkg";
    assert !IsSpace(tail[0]);
    LStripAppend(t, tail);
    var l := LStrip(t) + tail;
    assert l[|l| - 1] == 'g';
    RStripKeeps(l);
  }

  /** What precedes "]" and the extension in an entry's file name. */
  function NameFront(e: Entry): string {
    e.name + VersionTag(e) + " [" + e.titleId
  }

  lemma FileNamePkg(e: Entry)
    ensures FileName(e, ".pkg") == NameFront(e) + "].pkg"
  {
    assert "]" + ".pkg" == "].pkg";
  }

  /** The sanitized name of an entry whose package ends in ".pkg" is a stem ending in ']' plus ".pkg". */
  lemma PkgFileNameShape(e: Entry)
    ensures var f := Sanitize(FileName(e, ".pkg"));
      && |f| >= 5 && f[|f| - 5..] == "].pkg"
      && f == f[..|f| - 4] + ".pkg"
  {
    FileNamePkg(e);
    SanitizePkg(NameFront(e));
    BracketPkgTail(LStrip(ReplaceForbidden(NameFront(e))));
  }

  lemma BracketPkgTail(front: string)
    ensures var f := front + "].pkg";
      && |f| >= 5 && f[|f| - 5..] == "].pkg"
      && f == f[..|f| - 4] + ".pkg"
  {
    var f := front + "].pkg";
    assert f[|f| - 5..] == "].pkg";
    assert f[..|f| - 4] == front + "]";
  }
}
