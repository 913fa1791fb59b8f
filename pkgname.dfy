/**
 * Identification of a package by its base name: a hand-written matcher for
 * the pattern `pkg_re` (nps_renamer.py line 66),
 *
 *   ^([A-Z]{2}\d{4}-([A-Z]{4}\d{5})_00-.*?)(?:_patch_(.*?))?\.pkg$   (case-insensitive)
 *
 * and the `(content_id, title_id, patch)` triple `findall` hands back.
 *
 * Without the MULTILINE flag `$` matches at the very end and also just before
 * a final newline, and `.` matches anything but a newline; both are modelled.
 * Both `.*?` are lazy and the optional group is tried before it is skipped,
 * so the regex settles on the shortest content id, and for it prefers a patch
 * group, with the shortest patch.
 */
module PkgName {
  import opened Wrappers
  import opened Text

  predicate IsLetter(c: char) {
    'A' <= c <= 'Z' || 'a' <= c <= 'z'
  }

  predicate IsDigit(c: char) {
    '0' <= c <= '9'
  }

  /** `s` spells `lit` up to ASCII case. */
  predicate CiEq(s: string, lit: string) {
    |s| == |lit| && Lower(s) == Lower(lit)
  }

  /** The fixed-width head `[A-Z]{2}\d{4}-[A-Z]{4}\d{5}_00-`: 20 characters. */
  predicate HeadOk(s: string) {
    && |s| >= 20
    && IsLetter(s[0]) && IsLetter(s[1])
    && IsDigit(s[2]) && IsDigit(s[3]) && IsDigit(s[4]) && IsDigit(s[5])
    && s[6] == '-'
    && IsLetter(s[7]) && IsLetter(s[8]) && IsLetter(s[9]) && IsLetter(s[10])
    && IsDigit(s[11]) && IsDigit(s[12]) && IsDigit(s[13]) && IsDigit(s[14]) && IsDigit(s[15])
    && s[16] == '_' && s[17] == '0' && s[18] == '0' && s[19] == '-'
  }

  /** No newline in `s[lo..hi]`: what `.*?` may run over. */
  predicate NoNewline(s: string, lo: int, hi: int) {
    forall k :: lo <= k < hi && 0 <= k < |s| ==> s[k] != '\n'
  }

  /** `\.pkg$` matches at position `q`. */
  predicate EndAt(s: string, q: int) {
    && 0 <= q && q + 4 <= |s|
    && CiEq(s[q..q + 4], ".pkg")
    && (q + 4 == |s| || (q + 5 == |s| && s[q + 4] == '\n'))
  }

  /** `_patch_` starts at position `p`. */
  predicate PatchAt(s: string, p: int) {
    0 <= p && p + 7 <= |s| && CiEq(s[p..p + 7], "_patch_")
  }

  /** The optional group matches from `p`, with the patch text ending at `q`, and `\.pkg$` follows. */
  predicate PatchTail(s: string, p: int, q: int) {
    PatchAt(s, p) && p + 7 <= q && NoNewline(s, p + 7, q) && EndAt(s, q)
  }

  /** What follows a first group that ends at `p`: the patch group ending at `q`, or no group. */
  predicate TailOk(s: string, p: int, patchEnd: Option<nat>) {
    match patchEnd
    case None => EndAt(s, p)
    case Some(q) => PatchTail(s, p, q)
  }

  /** The whole pattern matches `s` with the first group `s[..p]` and the given patch group. */
  predicate Accepts(s: string, p: int, patchEnd: Option<nat>) {
    HeadOk(s) && 20 <= p && NoNewline(s, 20, p) && TailOk(s, p, patchEnd)
  }

  /** Of all the ways the pattern matches, the one the backtracking matcher reports. */
  ghost predicate Chosen(s: string, p: int, patchEnd: Option<nat>) {
    && Accepts(s, p, patchEnd)
    && (forall p', o :: 20 <= p' < p ==> !TailOk(s, p', o))
    && (patchEnd.None? ==> forall q :: !PatchTail(s, p, q))
    && (patchEnd.Some? ==> forall q :: q < patchEnd.value ==> !PatchTail(s, p, q))
  }

  /** Where the first group ends, and where the patch text ends when the group matched. */
  datatype Match = Match(end: nat, patchEnd: Option<nat>)

  /** The lazy `(.*?)\.pkg$` after `_patch_`: the first position from `q` on where `\.pkg$` matches. */
  function FindPatchEnd(s: string, q: nat): (r: Option<nat>)
    requires q <= |s|
    ensures r.Some? ==> q <= r.value && NoNewline(s, q, r.value) && EndAt(s, r.value)
    ensures r.Some? ==> forall k :: q <= k < r.value ==> !EndAt(s, k)
    ensures r.None? ==> forall k :: q <= k && NoNewline(s, q, k) ==> !EndAt(s, k)
    decreases |s| - q
  {
    if EndAt(s, q) then Some(q)
    else if q < |s| && s[q] != '\n' then FindPatchEnd(s, q + 1)
    else None
  }

  /** The lazy `.*?` of the first group: try each end from `p` on, the patch group before none. */
  function FindEnd(s: string, p: nat): (r: Option<Match>)
    requires p <= |s|
    ensures r.Some? ==> p <= r.value.end && NoNewline(s, p, r.value.end) && TailOk(s, r.value.end, r.value.patchEnd)
    ensures r.Some? ==> forall p', o :: p <= p' < r.value.end ==> !TailOk(s, p', o)
    ensures r.Some? && r.value.patchEnd.None? ==> forall q :: !PatchTail(s, r.value.end, q)
    ensures r.Some? && r.value.patchEnd.Some? ==> forall q :: q < r.value.patchEnd.value ==> !PatchTail(s, r.value.end, q)
    ensures r.None? ==> forall p', o :: p <= p' && NoNewline(s, p, p') ==> !TailOk(s, p', o)
    decreases |s| - p
  {
    var patch := if PatchAt(s, p) then FindPatchEnd(s, p + 7) else None;
    if patch.Some? then Some(Match(p, patch))
    else if EndAt(s, p) then Some(Match(p, None))
    else if p < |s| && s[p] != '\n' then FindEnd(s, p + 1)
    else None
  }

  /** The regex match of a base name, if it has one. */
  function Parse(s: string): (r: Option<Match>)
    ensures r.Some? ==> Chosen(s, r.value.end, r.value.patchEnd)
    ensures r.None? ==> forall p, o :: !Accepts(s, p, o)
  {
    if HeadOk(s) then FindEnd(s, 20) else None
  }

  /** The `(content_id, title_id, patch)` triple; an unmatched patch group reads as "". */
  datatype PkgId = PkgId(contentId: string, titleId: string, patch: string)

  /** `pkg_re.findall(name)[0]`, or None when the list is empty. */
  function Identify(name: string): Option<PkgId> {
    match Parse(name)
    case None => None
    case Some(m) =>
      var patch := match m.patchEnd case None => "" case Some(q) => name[m.end + 7..q];
      Some(PkgId(name[..m.end], name[7..16], patch))
  }

  /**
   * On success the title id is the nine characters at positions 7 to 15 (four
   * letters, five digits) and the content id is a prefix of the name that
   * contains it.
   */
  lemma IdentifyIds(name: string)
    requires Identify(name).Some?
    ensures var id := Identify(name).value;
      && |id.titleId| == 9 && id.titleId == name[7..16]
      && (forall i :: 0 <= i < 4 ==> IsLetter(id.titleId[i]))
      && (forall i :: 4 <= i < 9 ==> IsDigit(id.titleId[i]))
      && 20 <= |id.contentId| <= |name| && id.contentId == name[..|id.contentId|]
      && id.contentId[7..16] == id.titleId
  {
  }

  /**
   * On success the name is the content id, then the "_patch_" marker and the
   * patch when that group matched, then ".pkg", possibly followed by one
   * newline; the marker and the extension match up to ASCII case.
   */
  lemma IdentifyRebuild(name: string) returns (marker: string, ext: string)
    requires Identify(name).Some?
    ensures var id := Identify(name).value;
      name == id.contentId + marker + id.patch + ext
    ensures marker == [] || CiEq(marker, "_patch_")
    ensures marker == [] ==> Identify(name).value.patch == []
    ensures CiEq(ext, ".pkg") || (|ext| == 5 && CiEq(ext[..4], ".pkg") && ext[4] == '\n')
  {
    var m := Parse(name).value;
    var p := m.end;
    assert Accepts(name, p, m.patchEnd);
    var id := Identify(name).value;
    match m.patchEnd {
      case None =>
        marker, ext := [], name[p..];
        assert id.contentId == name[..p] && id.patch == [];
        Pieces(name, p, p, p);
        EndAtRest(name, p);
      case Some(q) =>
        marker, ext := name[p..p + 7], name[q..];
        assert id.contentId == name[..p] && id.patch == name[p + 7..q];
        Pieces(name, p, p + 7, q);
        EndAtRest(name, q);
    }
  }

  /** A string is the concatenation of its pieces cut at `a`, `b` and `c`. */
  lemma Pieces(s: string, a: int, b: int, c: int)
    requires 0 <= a <= b <= c <= |s|
    ensures s == s[..a] + s[a..b] + s[b..c] + s[c..]
  {
  }

  /** Where `\.pkg$` matches, the rest of the name is ".pkg" or ".pkg" and a newline, up to case. */
  lemma EndAtRest(s: string, q: int)
    requires EndAt(s, q)
    ensures CiEq(s[q..], ".pkg") || (|s[q..]| == 5 && CiEq(s[q..][..4], ".pkg") && s[q..][4] == '\n')
  {
    if q + 4 < |s| {
      assert s[q..][..4] == s[q..q + 4];
    } else {
      assert s[q..] == s[q..q + 4];
    }
  }

  /** A name in the canonical shape, with no patch and no newline, is recognised. */
  lemma IdentifyCanonical(head: string, middle: string)
    requires HeadOk(head) && |head| == 20
    requires forall k :: 0 <= k < |middle| ==> middle[k] != '\n'
    ensures Identify(head + middle + ".pkg").Some?
    ensures Identify(head + middle + ".pkg").value.titleId == head[7..16]
  {
    var s := head + middle + ".pkg";
    var p := 20 + |middle|;
    assert s[p..p + 4] == ".pkg";
    assert EndAt(s, p);
    assert NoNewline(s, 20, p) by {
      forall k | 20 <= k < p ensures s[k] != '\n' {
        assert s[k] == middle[k - 20];
      }
    }
    assert s[..20] == head;
    assert Accepts(s, p, None);
  }
}
