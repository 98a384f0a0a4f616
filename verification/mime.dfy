/**
  Image classification by file extension, case-insensitively, over the
  eight extensions the inliner recognises.
 */
module Mime {
  import opened Strings

  const ImageExtensions: seq<string> := [".jpg", ".jpeg", ".png", ".gif", ".svg", ".webp", ".bmp", ".ico"]

  /** Some extension of `exts` ends `lower` (the loop over the extension slice). */
  predicate EndsWithAny(lower: string, exts: seq<string>)
    decreases |exts|
  {
    |exts| > 0 && (HasSuffix(lower, exts[0]) || EndsWithAny(lower, exts[1..]))
  }

  /** `isImageFile`. */
  predicate IsImageFile(src: string): (r: bool)
    ensures r <==> exists j :: 0 <= j < |ImageExtensions| && HasSuffix(ToLower(src), ImageExtensions[j])
  {
    EndsWithAnyIff(ToLower(src), ImageExtensions);
    EndsWithAny(ToLower(src), ImageExtensions)
  }

  /** The loop over the extensions succeeds exactly when one of them ends the name. */
  lemma {:induction false} EndsWithAnyIff(lower: string, exts: seq<string>)
    ensures EndsWithAny(lower, exts) <==> exists j :: 0 <= j < |exts| && HasSuffix(lower, exts[j])
    decreases |exts|
  {
    if |exts| > 0 {
      EndsWithAnyIff(lower, exts[1..]);
      if exists j :: 0 <= j < |exts| && HasSuffix(lower, exts[j]) {
        var j :| 0 <= j < |exts| && HasSuffix(lower, exts[j]);
        if j > 0 {
          assert exts[1..][j - 1] == exts[j];
        }
      }
      if EndsWithAny(lower, exts[1..]) {
        var j :| 0 <= j < |exts[1..]| && HasSuffix(lower, exts[1..][j]);
        assert exts[j + 1] == exts[1..][j];
      }
    }
  }

  /** The media type for each of `ImageExtensions`, position by position. */
  const MediaTypes: seq<string> := ["image/jpeg", "image/jpeg", "image/png", "image/gif", "image/svg+xml", "image/webp", "image/bmp", "image/x-icon"]

  /**
    The cases of the `getMimeType` switch from position `i` on, tried in
    source order (`.jpg` and `.jpeg` share the first case).
   */
  function MediaTypeFrom(lower: string, i: nat): (r: string)
    requires i <= |ImageExtensions|
    ensures r == "" <==> forall j :: i <= j < |ImageExtensions| ==> !HasSuffix(lower, ImageExtensions[j])
    ensures r != "" ==> exists j :: i <= j < |ImageExtensions| && HasSuffix(lower, ImageExtensions[j]) && r == MediaTypes[j]
    decreases |ImageExtensions| - i
  {
    if i == |ImageExtensions| then ""
    else if HasSuffix(lower, ImageExtensions[i]) then MediaTypes[i]
    else MediaTypeFrom(lower, i + 1)
  }

  /** `getMimeType`: the media type for a recognised extension, else "". */
  function GetMimeType(filename: string): (r: string)
    ensures r == "" || r in MediaTypes
  {
    MediaTypeFrom(ToLower(filename), 0)
  }

  /** Every media type produced is an `image/` type and carries no ',' (it ends before a data URI's comma). */
  lemma MediaTypeShape(m: string)
    requires m in MediaTypes
    ensures HasPrefix(m, "image/") && ',' !in m && m != ""
  {
  }

  /** An extension is a dot followed by dot-free text. */
  predicate IsExtension(x: string)
  {
    |x| > 0 && x[0] == '.' && forall i :: 0 < i < |x| ==> x[i] != '.'
  }

  /** One extension ends another only when they are the same. */
  lemma ExtensionSuffix(x: string, y: string)
    requires IsExtension(x) && IsExtension(y) && HasSuffix(x, y)
    ensures x == y
  {
    var d := |x| - |y|;
    assert x[d..][0] == x[d];
  }

  lemma SuffixesNest(s: string, a: string, b: string)
    requires HasSuffix(s, a) && HasSuffix(s, b) && |a| <= |b|
    ensures HasSuffix(b, a)
  {
    assert b[|b| - |a|..] == s[|s| - |a|..];
  }

  /** The eight extensions are distinct and each is a proper extension. */
  lemma ExtensionTable(j: nat)
    requires j < |ImageExtensions|
    ensures IsExtension(ImageExtensions[j])
    ensures forall k :: 0 <= k < |ImageExtensions| && k != j ==> ImageExtensions[k] != ImageExtensions[j]
  {
  }

  /** No name ends in two different recognised extensions. */
  lemma ExtensionsExclusive(lower: string, j: nat, k: nat)
    requires j < |ImageExtensions| && k < |ImageExtensions|
    requires HasSuffix(lower, ImageExtensions[j]) && HasSuffix(lower, ImageExtensions[k])
    ensures j == k
  {
    var x, y := ImageExtensions[j], ImageExtensions[k];
    ExtensionTable(j);
    ExtensionTable(k);
    if |x| <= |y| {
      SuffixesNest(lower, x, y);
      ExtensionSuffix(y, x);
    } else {
      SuffixesNest(lower, y, x);
      ExtensionSuffix(x, y);
    }
  }

  /** Whatever the case of the name, a name ending in the k-th extension gets the k-th media type. */
  lemma MimeTypeOfExtension(filename: string, k: nat)
    requires k < |ImageExtensions| && HasSuffix(ToLower(filename), ImageExtensions[k])
    ensures GetMimeType(filename) == MediaTypes[k]
  {
    var lower := ToLower(filename);
    var r := MediaTypeFrom(lower, 0);
    var j :| 0 <= j < |ImageExtensions| && HasSuffix(lower, ImageExtensions[j]) && r == MediaTypes[j];
    ExtensionsExclusive(lower, j, k);
  }

  /** The two classifiers agree: a media type exists exactly for image files. */
  lemma MimeTypeIffImage(filename: string)
    ensures GetMimeType(filename) != "" <==> IsImageFile(filename)
  {
    EndsWithAnyIff(ToLower(filename), ImageExtensions);
  }
}
