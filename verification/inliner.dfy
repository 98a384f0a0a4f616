/**
  `resolveAndEmbed`: turns one asset reference found in a content or style
  file into a `data:` URI carrying the asset's bytes, or "" when the
  reference is external, cannot be found in the archive, or does not name
  a recognised image type.
 */
module Inliner {
  import opened Wrappers
  import opened Strings
  import opened Archive
  import opened Resolve
  import opened Percent
  import opened Mime
  import opened Base64

  /** References that are already self-contained or point at the network. */
  predicate IsExternal(src: string)
  {
    HasPrefix(src, "data:") || HasPrefix(src, "http://") || HasPrefix(src, "https://")
  }

  /** Drops everything from the first '#' on. */
  function StripFragment(src: string): (r: string)
    ensures '#' !in r
    ensures HasPrefix(src, r)
    ensures r != src ==> src[|r|] == '#'
  {
    var i := Index(src, "#");
    if i == -1 then
      assert '#' !in src by {
        forall j | 0 <= j < |src|
          ensures src[j] != '#'
        {
          OccursOneChar(src, '#', j);
        }
      }
      src
    else
      OccursOneChar(src, '#', i);
      assert forall j :: 0 <= j < i ==> src[j] != '#' by {
        forall j | 0 <= j < i
          ensures src[j] != '#'
        {
          OccursOneChar(src, '#', j);
        }
      }
      src[..i]
  }

  /** The reference after fragment stripping and query-unescaping; undecodable text is kept raw. */
  function CleanSource(src: string): (r: string)
    ensures QueryUnescape(StripFragment(src)).None? ==> r == StripFragment(src)
    ensures QueryUnescape(StripFragment(src)).Some? ==> r == QueryUnescape(StripFragment(src)).value
  {
    var f := StripFragment(src);
    match QueryUnescape(f)
    case Some(d) => d
    case None => f
  }

  /** A reference with a `%` not followed by two hex digits is looked up as written, up to its fragment. */
  lemma RawOnBadEscape(src: string, i: int)
    requires BadEscapeAt(StripFragment(src), i)
    ensures CleanSource(src) == StripFragment(src)
  {
    QueryUnescapeFails(StripFragment(src));
  }

  /** A `+` written in a reference that has no `%` or `#` is always looked up as a space. */
  lemma PlusIsSpace(src: string)
    requires '%' !in src && '#' !in src
    ensures CleanSource(src) == ReplaceChar(src, '+', " ")
    ensures '+' !in CleanSource(src)
  {
    assert StripFragment(src) == src;
    UnescapeWithoutEscapes(src);
  }

  /** The three archive names tried, in order: resolved, as written, normalised. */
  function Candidates(base: string, clean: string): (c: seq<string>)
    ensures |c| == 3
    ensures !HasPrefix(c[2], "/")
  {
    var p := ResolveRelativePath(base, clean);
    [p, clean, NormalizePath(p)]
  }

  /** The first of `keys` stored in the archive. */
  function FirstStored(files: Files, keys: seq<string>): (r: Option<nat>)
    ensures r.None? <==> forall i :: 0 <= i < |keys| ==> keys[i] !in files
    ensures r.Some? ==>
      && r.value < |keys| && keys[r.value] in files
      && forall j :: 0 <= j < r.value ==> keys[j] !in files
  {
    if |keys| == 0 then None
    else if keys[0] in files then Some(0)
    else match FirstStored(files, keys[1..])
      case None => None
      case Some(i) => Some(i + 1)
  }

  /** `data:<mime>;base64,<payload>` as `fmt.Sprintf` builds it. */
  function DataUri(mime: string, data: seq<byte>): (r: string)
    ensures HasPrefix(r, "data:" + mime + ";base64,")
    ensures |r| == 13 + |mime| + 4 * ((|data| + 2) / 3)
  {
    var h := "data:" + mime + ";base64,";
    assert (h + Encode(data))[..|h|] == h;
    "data:" + mime + ";base64," + Encode(data)
  }

  /** `resolveAndEmbed`. */
  function ResolveAndEmbed(src: string, base: string, files: Files): (r: string)
    ensures IsExternal(src) ==> r == ""
    ensures var clean := CleanSource(src);
      var c := Candidates(base, clean);
      && (r != "" <==> !IsExternal(src) && IsImageFile(clean) && exists k :: 0 <= k < 3 && c[k] in files)
      && (r != "" ==> exists k :: 0 <= k < 3 && c[k] in files && (forall j :: 0 <= j < k ==> c[j] !in files)
                                && r == DataUri(GetMimeType(clean), files[c[k]]))
  {
    if IsExternal(src) then ""
    else
      var clean := CleanSource(src);
      match FirstStored(files, Candidates(base, clean))
      case None => ""
      case Some(k) =>
        var mime := GetMimeType(clean);
        MimeTypeIffImage(clean);
        if mime == "" then "" else DataUri(mime, files[Candidates(base, clean)[k]])
  }

  /** Reads a `data:<mime>;base64,<payload>` URI back into its media type and bytes. */
  function ParseDataUri(u: string): (r: Option<(string, seq<byte>)>)
  {
    if !HasPrefix(u, "data:") then None
    else
      var comma := Index(u, ",");
      if comma < 5 then None
      else
        var header := u[5..comma];
        if !HasSuffix(header, ";base64") then None
        else match Decode(u[comma + 1..])
          case None => None
          case Some(data) => Some((header[..|header| - 7], data))
  }

  /** A data URI built for a recognised media type parses back to that type and the same bytes. */
  lemma ParseDataUriOfDataUri(mime: string, data: seq<byte>)
    requires mime in MediaTypes
    ensures ParseDataUri(DataUri(mime, data)) == Some((mime, data))
  {
    MediaTypeShape(mime);
    ParseDataUriSplits(mime, Encode(data));
    DecodeEncode(data);
  }

  lemma ParseDataUriSplits(mime: string, payload: string)
    requires ',' !in mime
    ensures var u := "data:" + mime + ";base64," + payload;
      ParseDataUri(u) == match Decode(payload) { case None => None case Some(d) => Some((mime, d)) }
  {
    var head := "data:" + mime + ";base64";
    var u := head + "," + payload;
    assert u == "data:" + mime + ";base64," + payload;
    assert ',' !in head by {
      assert forall i :: 5 <= i < 5 + |mime| ==> head[i] == mime[i - 5];
    }
    assert u[..|head|] == head;
    IndexOfChar(u, ',', |head|);
    assert Index(u, ",") == |head|;
    assert HasPrefix(u, "data:");
    var header := u[5..|head|];
    assert header == mime + ";base64";
    assert HasSuffix(header, ";base64");
    assert header[..|header| - 7] == mime;
    assert u[|head| + 1..] == payload;
  }

  /**
    Whatever `resolveAndEmbed` inlines decodes back to the bytes of the
    archive entry it found, under the media type of the reference's name.
   */
  lemma InlinedBytesRoundTrip(src: string, base: string, files: Files)
    requires ResolveAndEmbed(src, base, files) != ""
    ensures var clean := CleanSource(src);
      var c := Candidates(base, clean);
      exists k :: 0 <= k < 3 && c[k] in files
        && ParseDataUri(ResolveAndEmbed(src, base, files)) == Some((GetMimeType(clean), files[c[k]]))
  {
    var clean := CleanSource(src);
    var c := Candidates(base, clean);
    var k :| 0 <= k < 3 && c[k] in files && (forall j :: 0 <= j < k ==> c[j] !in files)
      && ResolveAndEmbed(src, base, files) == DataUri(GetMimeType(clean), files[c[k]]);
    MimeTypeIffImage(clean);
    ParseDataUriOfDataUri(GetMimeType(clean), files[c[k]]);
  }
}
