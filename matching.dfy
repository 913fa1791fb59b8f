/**
 * Finding the catalog entry for a package: the two predicates
 * (`predicate_filename`, `predicate_hash`), the first-match search
 * `next((e for e in entries if ...), None)`, and the choice between the
 * filename tier and the SHA-256 tier.
 */
module Matching {
  import opened Wrappers
  import opened Text
  import opened Paths
  import opened Catalog
  import opened PkgName

  /** Every character of `s` is '0' (so `s.lstrip("0")` is empty). */
  predicate AllZeros(s: string) {
    forall k :: 0 <= k < |s| ==> s[k] == '0'
  }

  /**
   * `predicate_filename`: with a patch number that is not all zeros, the entry
   * must have the title id and, as update version, the patch without its
   * leading zeros; the content id plays no part. Otherwise the entry must have
   * both the content id and the title id.
   */
  function PredicateFilename(e: Entry, contentId: string, titleId: string, patch: string): (r: bool)
    ensures r ==> e.titleId == titleId
    ensures AllZeros(patch) ==> (r <==> e.contentId == contentId && e.titleId == titleId)
    ensures !AllZeros(patch) ==>
      (r <==> e.titleId == titleId && e.updateVersion == patch[|patch| - |LStripChar(patch, '0')|..])
  {
    var stripped := LStripChar(patch, '0');
    if stripped != "" then e.titleId == titleId && e.updateVersion == stripped
    else e.contentId == contentId && e.titleId == titleId
  }

  /** With a real patch number the content id parsed from the name does not matter. */
  lemma PatchIgnoresContentId(e: Entry, c1: string, c2: string, titleId: string, patch: string)
    requires !AllZeros(patch)
    ensures PredicateFilename(e, c1, titleId, patch) == PredicateFilename(e, c2, titleId, patch)
  {
  }

  /** Leading zeros of the patch number do not change the verdict. */
  lemma {:induction false} LeadingZerosIgnored(e: Entry, contentId: string, titleId: string, patch: string)
    ensures PredicateFilename(e, contentId, titleId, "0" + patch) == PredicateFilename(e, contentId, titleId, patch)
  {
    assert ("0" + patch)[1..] == patch;
  }

  /** `predicate_hash`: the entry records the package's SHA-256 digest. */
  predicate PredicateHash(e: Entry, digest: string) {
    e.sha256 == digest
  }

  /**
   * The generator-and-`next` search: the position of the first element that
   * satisfies `p`, or None exactly when no element does.
   */
  function FindFirst<T>(xs: seq<T>, p: T -> bool): (r: Option<nat>)
    ensures r.Some? ==> r.value < |xs| && p(xs[r.value])
    ensures r.Some? ==> forall j :: 0 <= j < r.value ==> !p(xs[j])
    ensures r.None? <==> forall j :: 0 <= j < |xs| ==> !p(xs[j])
  {
    if xs == [] then None
    else if p(xs[0]) then Some(0)
    else match FindFirst(xs[1..], p)
      case None => None
      case Some(i) => Some(i + 1)
  }

  /**
   * The matching step for one package: when its base name follows the
   * canonical pattern, the first entry the filename predicate accepts;
   * otherwise the first entry carrying its SHA-256 digest. The digest is an
   * input; only the hash tier looks at it.
   */
  function MatchEntry(entries: seq<Entry>, path: string, digest: string): (r: Option<nat>)
    ensures r.Some? ==> r.value < |entries|
    ensures Identify(Basename(path)).Some? ==>
      var id := Identify(Basename(path)).value;
      && (r.Some? ==> PredicateFilename(entries[r.value], id.contentId, id.titleId, id.patch))
      && (r.Some? ==> forall j :: 0 <= j < r.value ==> !PredicateFilename(entries[j], id.contentId, id.titleId, id.patch))
      && (r.None? <==> forall j :: 0 <= j < |entries| ==> !PredicateFilename(entries[j], id.contentId, id.titleId, id.patch))
    ensures Identify(Basename(path)).None? ==>
      && (r.Some? ==> entries[r.value].sha256 == digest)
      && (r.Some? ==> forall j :: 0 <= j < r.value ==> entries[j].sha256 != digest)
      && (r.None? <==> forall j :: 0 <= j < |entries| ==> entries[j].sha256 != digest)
  {
    match Identify(Basename(path))
    case Some(id) => FindFirst(entries, e => PredicateFilename(e, id.contentId, id.titleId, id.patch))
    case None => FindFirst(entries, e => PredicateHash(e, digest))
  }
}
