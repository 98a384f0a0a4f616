/**
  The per-match replacement callbacks of `embedImages` and the
  replace-all loop that drives them. The regular-expression engine that
  finds matches is not modelled: a `Finder` supplies, for each of the
  three patterns, the split of a text into unmatched stretches and
  matches with their four capture groups.
 */
module Rewriter {
  import opened Strings
  import opened Archive
  import opened Mime
  import opened Inliner

  /** The three reference syntaxes: `<img … src=`, `xlink:href=` and `url(`. */
  datatype Pattern = ImgSrc | XlinkHref | CssUrl

  /**
    One match split into its capture groups: the text before the reference
    (`<img … src=`, `xlink:href=` or `url(` with surrounding blanks), the
    opening quote (possibly empty for `url(`), the reference, and the
    closing quote (for `url(`: optional quote, blanks and the `)`).
   */
  datatype Match = Match(prefix: string, quote: string, src: string, suffix: string)
  {
    function Text(): string
    {
      prefix + quote + src + suffix
    }
  }

  /** A stretch of text the pattern did not match, or one match. */
  datatype Piece = Literal(text: string) | Hit(m: Match)

  /** The matches of each pattern in a text, as the regex engine would report them. */
  type Finder = (Pattern, string) -> seq<Piece>

  /** The text a split came from. */
  function Flatten(ps: seq<Piece>): string
  {
    if ps == [] then ""
    else (match ps[0] case Literal(t) => t case Hit(m) => m.Text()) + Flatten(ps[1..])
  }

  predicate NoHits(ps: seq<Piece>)
  {
    forall i :: 0 <= i < |ps| ==> ps[i].Literal?
  }

  /** The finder reports a split of `s` itself for pattern `p`. */
  predicate Faithful(find: Finder, p: Pattern, s: string)
  {
    Flatten(find(p, s)) == s
  }

  /** `ReplaceAllStringFunc`: every match replaced by `f` of it, other text copied. */
  function ReplaceAllFunc(ps: seq<Piece>, f: Match -> string): (r: string)
    ensures NoHits(ps) ==> r == Flatten(ps)
  {
    if ps == [] then ""
    else (match ps[0] case Literal(t) => t case Hit(m) => f(m)) + ReplaceAllFunc(ps[1..], f)
  }

  /**
    The callback for one match of pattern `p`: the `xlink:href` and `url(`
    callbacks first require an image file name; then the reference is
    inlined, keeping the prefix, the opening quote and the closing part,
    and the match is returned unchanged if inlining yields nothing.
   */
  function Callback(p: Pattern, m: Match, base: string, files: Files): (r: string)
    ensures p != ImgSrc && !IsImageFile(m.src) ==> r == m.Text()
    ensures ResolveAndEmbed(m.src, base, files) == "" ==> r == m.Text()
    ensures (p == ImgSrc || IsImageFile(m.src)) && ResolveAndEmbed(m.src, base, files) != "" ==>
      r == m.prefix + m.quote + ResolveAndEmbed(m.src, base, files) + m.suffix
  {
    if p != ImgSrc && !IsImageFile(m.src) then m.Text()
    else
      var dataUri := ResolveAndEmbed(m.src, base, files);
      if dataUri != "" then m.prefix + m.quote + dataUri + m.suffix else m.Text()
  }

  /** The callback of pattern `p` as the function the replace-all loop calls. */
  function CallbackOf(p: Pattern, base: string, files: Files): Match -> string
  {
    m => Callback(p, m, base, files)
  }

  /** One pass of `embedImages` for pattern `p`; it changes nothing when no match can be inlined. */
  function RewritePass(find: Finder, p: Pattern, content: string, base: string, files: Files): (r: string)
    ensures Faithful(find, p, content) && NothingInlinable(find(p, content), base, files) ==> r == content
  {
    PassIdentity(find, p, content, base, files);
    ReplaceAllFunc(find(p, content), CallbackOf(p, base, files))
  }

  /**
    `embedImages`: the `<img src>` pass, then `xlink:href`, then `url(`,
    each on the previous output. Markup in which no reference can be
    inlined (in particular, with no matches at all) comes out byte for
    byte unchanged.
   */
  function EmbedImages(content: string, base: string, files: Files, find: Finder): (r: string)
    ensures (forall p: Pattern :: Faithful(find, p, content) && NothingInlinable(find(p, content), base, files)) ==> r == content
  {
    var afterImg := RewritePass(find, ImgSrc, content, base, files);
    var afterXlink := RewritePass(find, XlinkHref, afterImg, base, files);
    RewritePass(find, CssUrl, afterXlink, base, files)
  }

  // ---------------------------------------------------------------------
  // Properties

  /**
    Every callback keeps the surrounding markup: its result starts with the
    prefix and opening quote and ends with the closing part, and in between
    holds either the original reference or a data URI that decodes back to
    the bytes of an archive entry.
   */
  lemma CallbackKeepsFrame(p: Pattern, m: Match, base: string, files: Files)
    ensures var r := Callback(p, m, base, files);
      exists middle ::
        && r == m.prefix + m.quote + middle + m.suffix
        && (middle == m.src || ParseDataUri(middle).Some?)
  {
    var d := ResolveAndEmbed(m.src, base, files);
    if (p == ImgSrc || IsImageFile(m.src)) && d != "" {
      InlinedBytesRoundTrip(m.src, base, files);
      assert Callback(p, m, base, files) == m.prefix + m.quote + d + m.suffix;
    } else {
      assert Callback(p, m, base, files) == m.prefix + m.quote + m.src + m.suffix;
    }
  }

  /** A pass whose callback returns every match unchanged leaves the text unchanged. */
  lemma {:induction false} ReplaceAllIdentity(ps: seq<Piece>, f: Match -> string)
    requires forall i :: 0 <= i < |ps| && ps[i].Hit? ==> f(ps[i].m) == ps[i].m.Text()
    ensures ReplaceAllFunc(ps, f) == Flatten(ps)
    decreases |ps|
  {
    if ps != [] {
      ReplaceAllIdentity(ps[1..], f);
    }
  }

  /** No reference in the split can be inlined, so the pass changes nothing. */
  predicate NothingInlinable(ps: seq<Piece>, base: string, files: Files)
  {
    forall i :: 0 <= i < |ps| && ps[i].Hit? ==> ResolveAndEmbed(ps[i].m.src, base, files) == ""
  }

  /** Over a faithful split in which nothing can be inlined, the callbacks give back the text. */
  lemma PassIdentity(find: Finder, p: Pattern, content: string, base: string, files: Files)
    ensures Faithful(find, p, content) && NothingInlinable(find(p, content), base, files) ==>
      ReplaceAllFunc(find(p, content), CallbackOf(p, base, files)) == content
  {
    if Faithful(find, p, content) && NothingInlinable(find(p, content), base, files) {
      ReplaceAllIdentity(find(p, content), CallbackOf(p, base, files));
    }
  }

  /** Text with no matches for any pattern comes out unchanged. */
  lemma EmbedImagesNoMatches(content: string, base: string, files: Files, find: Finder)
    requires forall p: Pattern :: Faithful(find, p, content) && NoHits(find(p, content))
    ensures EmbedImages(content, base, files, find) == content
  {
  }

  /** A reference that is already a `data:` URI is never re-inlined. */
  lemma DataUriPassesThrough(p: Pattern, m: Match, base: string, files: Files)
    requires HasPrefix(m.src, "data:")
    ensures Callback(p, m, base, files) == m.Text()
  {
  }
}
