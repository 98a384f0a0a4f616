# epub2pdf parser core in Dafny

This project models the pure part of an EPUB-to-PDF converter. It covers
two pieces:

- **The EPUB parser.** Once the archive has been read into memory, the
  parser does the following:
  - finds the package document through `META-INF/container.xml`;
  - derives the base directory;
  - builds the manifest lookup;
  - collects the style sheets in manifest order;
  - walks the spine to build the chapters.

  Asset references in a chapter or style sheet (`<img src>`,
  `xlink:href`, `url(...)`) are resolved against the archive. A reference
  is inlined as a `data:` URI with standard base64 (section 4 of RFC 4648)
  only when it resolves to a stored entry and its cleaned name has an
  image extension. For `xlink:href` and `url(`, the raw reference must
  also pass `isImageFile`. Every other reference is left as written. The book is
  then assembled into a single HTML document: the escaped title and author,
  the style sheets, and the body of every chapter.
- **`truncate` of the `info` command.** It fits a value into a fixed-width
  table cell.

The archive is a map from entry name to bytes (`Archive.Files`). A Go
string is a byte string, so a `string` here holds one byte per character.

The modules follow the structure of the program, except `Filter`, which
is a shared helper:

- `Strings`: the Go `strings` functions the parser uses.
- `GoPath`: the lexical `path.Clean`, `path.Join` and `path.Dir`.
- `Resolve`: `resolvePath`, `resolveRelativePath` and `normalizePath`.
- `Percent`: `url.QueryUnescape`.
- `Base64`: standard encoding and a reference decoder.
- `Mime`: `isImageFile` and `getMimeType`.
- `Inliner`: `resolveAndEmbed`.
- `Rewriter`: the replacement callbacks of `embedImages`.
- `Filter`: order-preserving selection of positions, used by both
  manifest walks.
- `Epub`: the data model and `Parse`.
- `Html`: `escapeHTML`, `extractBodyContent` and `ToHTML`.
- `Info`: `truncate`.

## Model

| member | source | states |
|---|---|---|
| Archive.Text | internal/epub/parser.go:229 | Go's `string(data)`: one character per byte, the same length, each character the byte's value, so the text is a byte string. |
| Strings.HasPrefix | internal/epub/parser.go:315 | `strings.HasPrefix`; its meaning as a decomposition is `Strings.HasPrefixIff`. |
| Strings.HasPrefixIff | internal/epub/parser.go:315 | `s` starts with `p` exactly when `s` is `p` followed by some text. |
| Strings.HasSuffix | internal/epub/parser.go:400 | `strings.HasSuffix`; its meaning as a decomposition is `Strings.HasSuffixIff`. |
| Strings.HasSuffixIff | internal/epub/parser.go:400-422 | `s` ends with `p` exactly when `s` is some text followed by `p`. |
| Strings.Contains | internal/epub/parser.go:152 | `strings.Contains`; its meaning as a decomposition is `Strings.ContainsIff`. |
| Strings.ContainsIff | internal/epub/parser.go:152 | `t` occurs in `s` exactly when `s` splits into some text, `t`, and some more text. |
| Strings.Repeat | cmd/info.go:76 | `strings.Repeat` of one byte: exactly n characters, every one of them that byte. |
| Strings.Index | internal/epub/parser.go:321 | `strings.Index`: -1 exactly when the pattern does not occur; otherwise a position where it occurs with no occurrence before it. |
| Strings.LastIndex | internal/epub/parser.go:522 | `strings.LastIndex`: -1 exactly when the pattern does not occur; otherwise a position where it occurs with no occurrence after it. |
| Strings.ToLower | internal/epub/parser.go:397 | `strings.ToLower` on bytes: same length, each byte lower-cased on its own, so positions in the lower-cased text are positions in the original. |
| Strings.ReplaceChar | internal/epub/parser.go:531-534 | `strings.ReplaceAll` of one byte: a byte absent from the replacement is absent from the result, and text without the byte is unchanged. |
| Strings.TrimPrefix | internal/epub/parser.go:384 | `strings.TrimPrefix`: with the prefix present, prefix and result rebuild the input; otherwise the input comes back. |
| Epub.Parse | internal/epub/parser.go:86-121 | Each structural failure gives its own error, checked in the source's order: missing container entry, undecodable container, no root file, missing package entry (carrying its path), undecodable package. Otherwise the book has the package's title and creator, the derived base directory, the spine chapters and the style sheets. |
| Epub.ParsedBook | internal/epub/parser.go:112-182 | A successfully parsed book has these properties: its base directory is never "."; it has the package's title and author; it has at most one chapter per spine entry and at most one style sheet per manifest item; its chapters have strictly increasing `Order`; and any `Order`-sorted rearrangement of the chapters equals the chapter list itself. |
| Epub.BaseDir | internal/epub/parser.go:112-115 | The base directory is never "." and is "" for a package at the archive root (a name without '/'). |
| Epub.ManifestMap | internal/epub/parser.go:123-127 | An id is in the lookup exactly when some manifest item carries it, and it maps to an item with that id. |
| Epub.ManifestMapLastWins | internal/epub/parser.go:123-127 | With repeated ids, the lookup holds the last manifest item carrying the id. |
| Epub.IsStyleSheet | internal/epub/parser.go:131-133 | The test a manifest item passes to become a style sheet: media type exactly `text/css` and resolved path stored. `Epub.StyleSheetIndices` states that exactly these items are kept. |
| Epub.StyleSheetIndices | internal/epub/parser.go:129-143 | The kept style sheets are exactly the manifest items of media type exactly `text/css` whose resolved path is in the archive, listed in strictly increasing manifest position. There are at most as many as manifest items. |
| Epub.StyleSheets | internal/epub/parser.go:129-143 | One style-sheet text per kept item, in manifest declaration order, with the sheet's images inlined against the sheet's own directory. There are at most as many as manifest items. |
| Epub.StyleText | internal/epub/parser.go:132-139 | A sheet's text with its images inlined against the sheet's own directory; when nothing in it can be inlined it is the stored text unchanged. |
| Epub.SpineChapters | internal/epub/parser.go:145-177 | One chapter per kept spine position, in the order of `Epub.ChapterIndices`. Each chapter is built from the manifest item the entry names, its content inlined against its own directory, and its `Order` equal to the spine position. |
| Epub.ChapterAt | internal/epub/parser.go:169-176 | The chapter's title is the manifest item's id and its `Order` is the spine position; when nothing in the file can be inlined its content is the stored text unchanged. |
| Epub.IsMarkup | internal/epub/parser.go:152 | A media type is chapter markup when it contains `html` or `xml` anywhere. `Epub.ChapterIffKept` states that only spine entries passing this test (and the other two) become chapters. |
| Epub.IsChapter | internal/epub/parser.go:146-160 | The three tests a spine entry passes to become a chapter: idref in the manifest, markup media type, file stored. `Epub.ChapterIffKept` states that exactly these entries are kept. |
| Epub.ChapterIndices | internal/epub/parser.go:145-160 | The spine positions that become chapters are exactly those whose idref is in the manifest, whose media type contains "html" or "xml", and whose file exists. They are strictly increasing and at most as many as spine entries. |
| Epub.DroppedIndices | internal/epub/parser.go:146-160 | Exactly the spine positions that fail one of the three tests are dropped. |
| Epub.ChaptersPlusDropped | internal/epub/parser.go:146-177 | Kept chapters plus dropped entries add up to the spine length. No entry is lost or counted twice. |
| Epub.ChaptersFollowSpine | internal/epub/parser.go:145-177 | There are at most as many chapters as spine entries. Each `Order` is a spine position, and the `Order` values strictly increase, so gaps follow skipped entries. Each title is the idref of the spine entry it came from, which is the manifest id. |
| Epub.ChapterIffKept | internal/epub/parser.go:146-177 | A spine position yields a chapter exactly when it passes the three tests. Any other entry is dropped without an error. |
| Epub.SortIsIdentity | internal/epub/parser.go:179-182 | The only `Order`-sorted permutation of a list with strictly increasing `Order` is that list. |
| Epub.ChapterSortIsIdentity | internal/epub/parser.go:179-182 | Sorting the spine walk's chapters by `Order` returns them unchanged. |
| Epub.OneChapterOneStyleSheet | internal/epub/parser.go:129-177 | A manifest with one XHTML chapter on the spine and one style sheet, both present, yields one chapter (order 0, titled by its id) and one style sheet. |
| Resolve.ResolvePath | internal/epub/parser.go:232-237 | An empty base returns the href verbatim. Otherwise the result is a non-empty, already clean path. |
| Resolve.ResolveRelativePath | internal/epub/parser.go:366-379 | An empty base returns the href verbatim. Otherwise the result is non-empty and clean. The recursion ends because each step removes three bytes. |
| Resolve.ResolveRelativeLoop | internal/epub/parser.go:366-379 | A loop that strips one "../" and moves the base up one directory per iteration computes the same result as the recursion. |
| Resolve.ResolveRelativeClosedForm | internal/epub/parser.go:366-379 | For a non-empty base, every leading "../" is consumed, the base moves up once per segment, and the rest of the href is joined to it. |
| Resolve.ParentsConsumed | internal/epub/parser.go:372-375 | After the counted "../" segments, none is left at the front of the href. |
| Resolve.UpClampsAtDot | internal/epub/parser.go:374 | Moving up from "." any number of times stays at ".", so the walk never fails. |
| Resolve.ThreeUpFromTwoLevels | internal/epub/parser.go:366-379 | From a two-level base, three "../" segments clamp at the root and give the bare file name. |
| Resolve.NormalizePath | internal/epub/parser.go:381-385 | The result never starts with '/'. It is the cleaned path, or the cleaned path with its single leading '/' removed. |
| GoPath.Clean | internal/epub/parser.go:383 | The cleaned path is never empty, and it is rooted exactly when the input is. Idempotence is `GoPath.CleanIdempotent`. |
| GoPath.CleanShape | internal/epub/parser.go:383-384 | A cleaned path never starts with "//", so trimming one '/' leaves no leading separator. |
| GoPath.CleanIdempotent | internal/epub/parser.go:383 | Cleaning a cleaned path changes nothing. |
| GoPath.Join | internal/epub/parser.go:236 | Joining gives "" exactly when both parts are empty. |
| GoPath.Dir | internal/epub/parser.go:374 | The directory of any path is non-empty. |
| GoPath.DirOfTwo | internal/epub/parser.go:374 | The directory of `a/b`, for names a and b, is `a`. |
| Percent.QueryUnescape | internal/epub/parser.go:326-329 | A decoded result is no longer than its input, and decoding a byte string gives a byte string. |
| Percent.UnescapeEncode | internal/epub/parser.go:326-329 | Decoding undoes percent-encoding of any byte string. |
| Percent.UnescapePlain | internal/epub/parser.go:326-329 | Text with no '%' and no '+' decodes to itself. |
| Percent.QueryUnescapeFails | internal/epub/parser.go:326-329 | Decoding fails exactly when some '%' lacks two hex digits after it. |
| Percent.UnescapeWithoutEscapes | internal/epub/parser.go:326-329 | Text without '%' decodes to itself with every '+' turned into a space. |
| Base64.Encode | internal/epub/parser.go:362 | The encoding has length 4·⌈n/3⌉, so any non-empty input gives at least one quantum. |
| Base64.DecodeEncode | internal/epub/parser.go:362 | The reference decoder of section 4 of RFC 4648 recovers exactly the encoded bytes. |
| Mime.EndsWithAnyIff | internal/epub/parser.go:396-405 | The extension loop succeeds exactly when one of the extensions ends the lower-cased name. |
| Mime.IsImageFile | internal/epub/parser.go:396-405 | A name is an image name exactly when its lower-cased form ends in one of the eight extensions. |
| Mime.MediaTypeFrom | internal/epub/parser.go:409-426 | The switch gives "" exactly when no remaining case matches. Otherwise it gives the media type of a matching extension. |
| Mime.GetMimeType | internal/epub/parser.go:407-427 | The result is "" or one of the seven image media types; which one is `Mime.MimeTypeOfExtension`. |
| Mime.ExtensionsExclusive | internal/epub/parser.go:398-423 | No name ends in two different recognised extensions, so the order of the switch cases cannot matter. |
| Mime.MimeTypeOfExtension | internal/epub/parser.go:407-427 | In any letter case, a name ending in the k-th extension gets the k-th media type. `.jpg` and `.jpeg` both give `image/jpeg`. |
| Mime.MimeTypeIffImage | internal/epub/parser.go:396-427 | `getMimeType` is non-empty exactly when `isImageFile` holds. |
| Inliner.StripFragment | internal/epub/parser.go:320-323 | The result has no '#'. It is a prefix of the reference, and when shorter it stops at the first '#'. |
| Inliner.CleanSource | internal/epub/parser.go:319-329 | The looked-up name is the fragment-stripped reference, decoded when decoding succeeds and kept raw when it fails. The two cases are characterised by `Inliner.RawOnBadEscape` and `Inliner.PlusIsSpace`. |
| Inliner.RawOnBadEscape | internal/epub/parser.go:326-329 | A reference with a '%' not followed by two hex digits is looked up as written, up to its fragment. |
| Inliner.PlusIsSpace | internal/epub/parser.go:326-338 | A '+' written in a reference that has no '%' or '#' is always looked up as a space, so the looked-up name holds no '+'. |
| Inliner.DataUri | internal/epub/parser.go:362-363 | The URI starts with `data:`, the media type and `;base64,`, and its length is 13 plus the media type's plus 4·⌈n/3⌉. Its round trip is `Inliner.ParseDataUriOfDataUri`. |
| Inliner.IsExternal | internal/epub/parser.go:315-317 | The predicate that makes `resolveAndEmbed` give up: the reference starts with `data:`, `http://` or `https://`. Its effect is stated by `Inliner.ResolveAndEmbed` and `Rewriter.DataUriPassesThrough`. |
| Inliner.Candidates | internal/epub/parser.go:332-341 | Exactly three names are tried, in order: the resolved path, the name as cleaned, the normalised path. The last is never rooted. |
| Inliner.FirstStored | internal/epub/parser.go:335-347 | The first candidate name stored in the archive, or none exactly when every candidate is missing. |
| Inliner.ResolveAndEmbed | internal/epub/parser.go:313-364 | External references give "". Otherwise the result is non-empty exactly when the cleaned name is an image name and one of the three candidates is stored. The candidates are tried in order: the resolved path, the unjoined cleaned name, then the normalised path. A non-empty result is the `data:` URI of the first stored candidate's bytes. Its media type comes from the cleaned name, not from the path found. |
| Inliner.ParseDataUriOfDataUri | internal/epub/parser.go:362-363 | A `data:` URI built for a recognised media type reads back to that type and the same bytes. |
| Inliner.InlinedBytesRoundTrip | internal/epub/parser.go:335-363 | Whatever is inlined decodes to the bytes of one of the three candidates stored in the archive, under the cleaned name's media type. |
| Rewriter.Callback | internal/epub/parser.go:251-308 | The match is returned unchanged when inlining gives "", or, for `xlink:href` and `url(`, when the reference is not an image name. Otherwise the result is prefix, opening quote, data URI, closing part. |
| Rewriter.CallbackKeepsFrame | internal/epub/parser.go:251-308 | Every callback keeps the prefix, quote and closing part. Between them is the original reference or a `data:` URI that parses. |
| Rewriter.ReplaceAllFunc | internal/epub/parser.go:251 | A split with no matches is copied through unchanged. |
| Rewriter.ReplaceAllIdentity | internal/epub/parser.go:251-308 | A pass whose callback returns every match unchanged reproduces its input. |
| Rewriter.RewritePass | internal/epub/parser.go:251-308 | One `ReplaceAllStringFunc` pass with a pattern's callback. It leaves the content unchanged when no match in the split can be inlined. |
| Rewriter.EmbedImages | internal/epub/parser.go:239-311 | The three passes run in source order, each on the previous output. Content where no reference can be inlined comes out unchanged. |
| Rewriter.EmbedImagesNoMatches | internal/epub/parser.go:239-311 | Content with no matches for any of the three patterns comes out unchanged. |
| Rewriter.DataUriPassesThrough | internal/epub/parser.go:315-317 | A reference that is already a `data:` URI is never rewritten. |
| Html.EscapeHtml | internal/epub/parser.go:530-536 | The output contains no raw '<', '>' or '"'. |
| Html.EscapeHtmlIsSinglePass | internal/epub/parser.go:530-536 | The four passes, with '&' first, equal one left-to-right pass that replaces each byte by its entity once. So `<` becomes `&lt;`, never `&amp;lt;`. |
| Html.EscapeHtmlIdentityIff | internal/epub/parser.go:530-536 | Escaping is the identity exactly on text without '&', '<', '>' and '"'. |
| Html.UnescapeEscape | internal/epub/parser.go:530-536 | Decoding the four entities undoes the escaping, so no text is lost. |
| Html.ExtractBodyContent | internal/epub/parser.go:508-528 | Text without a case-insensitive `<body` is returned unchanged. |
| Html.ExtractWithoutTagEnd | internal/epub/parser.go:515-519 | Text with no '>' after the first `<body` is returned unchanged. |
| Html.ExtractBetween | internal/epub/parser.go:508-528 | Take the first case-insensitive `<body`, the first '>' after it, and the last `</body>`. The result exists exactly when that '>' ends before the closing tag starts, and it is the original text strictly between them. Otherwise the slice panics. |
| Html.ExtractToEnd | internal/epub/parser.go:520-527 | Without a `</body>`, the body runs from just after the opening tag's '>' to the end. |
| Html.ExtractWrapped | internal/epub/parser.go:508-528 | A document wrapped in `<body …>` and `</body>` gives back exactly its inner text. |
| Html.AuthorLine | internal/epub/parser.go:489-491 | The author paragraph is present exactly for a non-empty author. Its content unescapes to the author. |
| Html.TitleLine | internal/epub/parser.go:433-435 | The preamble, then a `<title>` line whose content holds no '<' and unescapes to the book title. |
| Html.StyleBlock | internal/epub/parser.go:479-482 | Empty exactly when there are no sheets; otherwise it starts with the first sheet and a newline. |
| Html.TitlePage | internal/epub/parser.go:486-492 | The title-page division: an `<h1>` whose content holds no '<' and unescapes to the title, then the author line. |
| Html.ChapterBlock | internal/epub/parser.go:496-500 | The body sits between the opening `chapter` division line and the closing `</div>` line, and is recovered by dropping the 22-byte opening and the 8-byte closing. |
| Html.Blocks | internal/epub/parser.go:495-501 | The divisions exist exactly when every extraction result is present. |
| Html.BlocksAppend | internal/epub/parser.go:495-501 | The divisions of two lists of chapters are those of the first followed by those of the second. |
| Html.ChapterBlocks | internal/epub/parser.go:495-501 | Chapter blocks exist exactly when every chapter's body extraction succeeds. They start with the first chapter's body in a `chapter` division. |
| Html.ChapterBlocksAt | internal/epub/parser.go:495-501 | Chapter k's extracted body appears in its own `chapter` division, after the divisions of all earlier chapters and before those of all later ones. |
| Html.StyleBlockAppend | internal/epub/parser.go:479-482 | The style text of two lists of sheets is that of the first followed by that of the second. |
| Html.StyleBlockAt | internal/epub/parser.go:479-482 | Sheet k, followed by a newline, comes after all earlier sheets and before all later ones. |
| Html.ToHtml | internal/epub/parser.go:430-506 | A document exists exactly when no chapter's body extraction panics. It starts with the preamble and the escaped `<title>` line. Then come the style section, the title page and the chapter divisions. It ends with `</body>` and `</html>`. |
| Html.ToHtmlStyleSheetAt | internal/epub/parser.go:433-484 | In the document, sheet k comes after the title line, `<style>`, the baseline rules and all earlier sheets. It comes before all later sheets, the end of the head, the title page and the chapters. |
| Html.ToHtmlChapterAt | internal/epub/parser.go:486-503 | In the document, chapter k's extracted body, in its own division, comes after the title page and all earlier chapters. It comes before all later chapters and the closing tags. |
| Info.Truncate | cmd/info.go:74-79 | The result has exactly n bytes, so the value handed to the 49- and 54-column cells has exactly that many bytes. A value that fits is a prefix followed by spaces. A longer value keeps its first n-3 bytes followed by `...`. |
| Info.TruncateIdempotent | cmd/info.go:74-79 | Fitting an already fitted cell changes nothing. |
| Info.TruncateInformation | cmd/info.go:77-78 | Two over-long values that agree up to the cut give the same cell. |
| Filter.SelectPartition | internal/epub/parser.go:146-160 | Selected and rejected positions together number exactly the scanned range. |

## Left out

- **Reading the archive.** Opening the ZIP file and reading entries with
  `io.ReadAll` are not modelled. The archive is an already-loaded map, and
  every entry is readable. The source skips a chapter or style sheet whose
  read fails, and `resolveAndEmbed` returns "" when the read fails; neither
  case can arise here.
- **XML decoding.** `parseContainer` and `parsePackage` (`encoding/xml`)
  are parameters of `Epub.Parse`; a decoding error is `None`. The error
  messages are collapsed into the `ParseError` constructors.
- **The regular-expression engine.** The RE2 matching of the three
  patterns is a `Finder` parameter, which splits text into unmatched
  stretches and matches with their four groups. The callback's
  re-match and its `len(parts) < 5` fallback assume the engine reproduces
  the same groups, so that branch is not modelled.
- **The fixed CSS block.** The literal in `ToHTML` is the opaque constant
  `Html.BaseStyle`.
- **Case folding.** The model's `ToLower` folds ASCII letters only. Go's
  `strings.ToLower` maps each rune by its simple Unicode case mapping and
  can change the byte length: `Ⱥ` (U+023A, 2 bytes) becomes U+2C65
  (3 bytes), `İ` (U+0130, 2 bytes) becomes `i` (1 byte), and an invalid
  UTF-8 byte becomes U+FFFD. When that happens, the positions
  `extractBodyContent` finds in the lower-cased text no longer line up with
  the original it slices; the ASCII assumption hides that misalignment. It
  also hides non-ASCII matches of the extension tests: `isImageFile` and
  `getMimeType` take `cover.İCO` for an `image/x-icon` name, since `İ`
  lowers to `i`, while `Mime.IsImageFile` and `Mime.GetMimeType` do not.
- **Go's path functions.** `path.Clean`, `path.Join` and `path.Dir` are
  modelled lexically. They do not touch the file system in Go either.
- **The `extractBodyContent` panic.** The run-time panic is `None`, so
  `Html.ToHtml` returns `Option`.
- **Sorting.** `sort.Slice` is modelled by what any sort by `Order` must
  return (`Epub.SortIsIdentity`), not by its algorithm.
- **Base64 decoding.** `Base64.Decode` is a reference decoder for the
  round-trip. The program itself only encodes.
- **The rest of the command line.** The converter (headless Chrome, temp
  files, timeouts), the root and version commands, and the box-drawing
  output of the `info` command are not part of this model.
- Info.Truncate: requires `|s| <= n || n >= 3`. The Go slice panics for a
  too-long value when `n < 3`; the callers only use 49 and 54.
- Html.ExtractBodyContent: the function's own contract covers only the
  no-`<body` case. The other cases are stated by `Html.ExtractBetween`,
  `Html.ExtractToEnd` and `Html.ExtractWithoutTagEnd`.
