/**
  The package-level part of `Parse`: the structural checks on the
  container descriptor and the package document, the base directory,
  the style-sheet list in manifest order and the chapter list in spine
  order. Reading entries from the ZIP file and decoding the two XML
  documents are not modelled: the archive is a map and the decoders are
  parameters.
 */
module Epub {
  import opened Wrappers
  import opened Strings
  import opened Archive
  import opened GoPath
  import opened Resolve
  import opened Rewriter
  import opened Filter

  datatype RootFile = RootFile(fullPath: string, mediaType: string)

  /** `META-INF/container.xml` as decoded. */
  datatype Container = Container(rootFiles: seq<RootFile>)

  datatype ManifestItem = ManifestItem(id: string, href: string, mediaType: string)

  datatype SpineItemRef = SpineItemRef(idref: string)

  datatype Metadata = Metadata(title: string, creator: string)

  /** The OPF package document as decoded. */
  datatype Package = Package(metadata: Metadata, manifest: seq<ManifestItem>, spine: seq<SpineItemRef>)

  /** A chapter: its manifest id as title, its inlined markup, and its spine position. */
  datatype Chapter = Chapter(title: string, content: string, order: int)

  datatype Book = Book(title: string, author: string, chapters: seq<Chapter>, css: seq<string>, basePath: string)

  /** The structural errors that abort parsing. */
  datatype ParseError =
    | ContainerNotFound
    | ContainerUnreadable
    | NoRootFile
    | PackageNotFound(path: string)
    | PackageUnreadable

  const ContainerPath: string := "META-INF/container.xml"

  /** Decoders for the two XML documents; `None` is a decoding error. */
  type ContainerDecoder = seq<byte> -> Option<Container>
  type PackageDecoder = seq<byte> -> Option<Package>

  /** The package's directory, "" when the package sits at the archive root. */
  function BaseDir(opfPath: string): (r: string)
    ensures r != "."
    ensures '/' !in opfPath ==> r == ""
  {
    DirOfElement(opfPath);
    var d := Dir(opfPath);
    if d == "." then "" else d
  }

  /** The id-to-item lookup; a later item with a repeated id replaces the earlier one. */
  function ManifestMap(items: seq<ManifestItem>): (m: map<string, ManifestItem>)
    ensures forall id :: id in m <==> (exists i :: 0 <= i < |items| && items[i].id == id)
    ensures forall id :: id in m ==> m[id].id == id
    decreases |items|
  {
    if items == [] then map[]
    else
      var last := items[|items| - 1];
      var m := ManifestMap(items[..|items| - 1]);
      m[last.id := last]
  }

  lemma LastWinsStep(items: seq<ManifestItem>, front: seq<ManifestItem>, id: string, i: int)
    requires |items| > 0 && front == items[..|items| - 1] && items[|items| - 1].id != id
    requires 0 <= i < |front|
    requires forall j :: i < j < |front| ==> front[j].id != id
    ensures forall j :: i < j < |items| ==> items[j].id != id
  {
    assert forall j :: i < j < |front| ==> items[j] == front[j];
  }

  /** The item an id maps to is the last manifest item carrying that id. */
  lemma {:induction false} ManifestMapLastWins(items: seq<ManifestItem>, id: string)
    requires id in ManifestMap(items)
    ensures exists i ::
      && 0 <= i < |items| && items[i] == ManifestMap(items)[id]
      && (forall j :: i < j < |items| ==> items[j].id != id)
    decreases |items|
  {
    var n := |items| - 1;
    var front := items[..n];
    var m := ManifestMap(items);
    assert m == ManifestMap(front)[items[n].id := items[n]];
    if items[n].id == id {
      assert items[n] == m[id];
    } else {
      assert m[id] == ManifestMap(front)[id];
      ManifestMapLastWins(front, id);
      var i :| 0 <= i < |front| && front[i] == ManifestMap(front)[id]
        && forall j :: i < j < |front| ==> front[j].id != id;
      LastWinsStep(items, front, id, i);
    }
  }

  // ---------------------------------------------------------------------
  // Style sheets

  /** A manifest item whose media type is exactly `text/css` and whose file exists. */
  predicate IsStyleSheet(item: ManifestItem, base: string, files: Files)
  {
    item.mediaType == "text/css" && ResolvePath(base, item.href) in files
  }

  /** Positions of the kept style sheets in the manifest. */
  function StyleSheetIndices(items: seq<ManifestItem>, base: string, files: Files): (r: seq<nat>)
    ensures |r| <= |items|
    ensures forall k :: 0 <= k < |r| ==> r[k] < |items| && IsStyleSheet(items[r[k]], base, files)
    ensures forall k, l :: 0 <= k < l < |r| ==> r[k] < r[l]
    ensures forall i :: 0 <= i < |items| && IsStyleSheet(items[i], base, files) ==> i in r
  {
    Select((i: nat) => i < |items| && IsStyleSheet(items[i], base, files), 0, |items|)
  }

  /** A style sheet's text with its own images inlined against its own directory. */
  function StyleText(item: ManifestItem, base: string, files: Files, find: Finder): (r: string)
    requires IsStyleSheet(item, base, files)
    ensures var p := ResolvePath(base, item.href); var t := Text(files[p]);
      (forall pat: Pattern :: Faithful(find, pat, t) && NothingInlinable(find(pat, t), Dir(p), files)) ==> r == t
  {
    var p := ResolvePath(base, item.href);
    EmbedImages(Text(files[p]), Dir(p), files, find)
  }

  /** `book.CSS`: the kept style sheets, in manifest declaration order. */
  function StyleSheets(items: seq<ManifestItem>, base: string, files: Files, find: Finder): (css: seq<string>)
    ensures |css| <= |items|
    ensures var idx := StyleSheetIndices(items, base, files);
      |css| == |idx| && forall k :: 0 <= k < |css| ==> css[k] == StyleText(items[idx[k]], base, files, find)
  {
    var idx := StyleSheetIndices(items, base, files);
    seq(|idx|, k requires 0 <= k < |idx| => StyleText(items[idx[k]], base, files, find))
  }

  // ---------------------------------------------------------------------
  // Chapters

  /** Media types accepted as chapter content. */
  predicate IsMarkup(mediaType: string)
  {
    Contains(mediaType, "html") || Contains(mediaType, "xml")
  }

  /** Spine entry `i` names a manifest item of a markup type whose file exists. */
  predicate IsChapter(spine: seq<SpineItemRef>, m: map<string, ManifestItem>, i: nat, base: string, files: Files)
  {
    && i < |spine|
    && spine[i].idref in m
    && IsMarkup(m[spine[i].idref].mediaType)
    && ResolvePath(base, m[spine[i].idref].href) in files
  }

  /** The chapter built from spine entry `i`. */
  function ChapterAt(spine: seq<SpineItemRef>, m: map<string, ManifestItem>, i: nat, base: string, files: Files, find: Finder): (c: Chapter)
    requires IsChapter(spine, m, i, base, files)
    ensures c.title == m[spine[i].idref].id && c.order == i
    ensures var p := ResolvePath(base, m[spine[i].idref].href); var t := Text(files[p]);
      (forall pat: Pattern :: Faithful(find, pat, t) && NothingInlinable(find(pat, t), Dir(p), files)) ==> c.content == t
  {
    var item := m[spine[i].idref];
    var p := ResolvePath(base, item.href);
    Chapter(item.id, EmbedImages(Text(files[p]), Dir(p), files, find), i)
  }

  /** Strictly increasing `Order` values. */
  predicate StrictlyOrdered(cs: seq<Chapter>)
  {
    forall k, l :: 0 <= k < l < |cs| ==> cs[k].order < cs[l].order
  }

  /** Positions of the spine entries that become chapters. */
  function ChapterIndices(pkg: Package, base: string, files: Files): (r: seq<nat>)
    ensures var m := ManifestMap(pkg.manifest);
      && |r| <= |pkg.spine|
      && (forall k :: 0 <= k < |r| ==> IsChapter(pkg.spine, m, r[k], base, files))
      && (forall k, l :: 0 <= k < l < |r| ==> r[k] < r[l])
      && (forall i :: 0 <= i < |pkg.spine| && IsChapter(pkg.spine, m, i, base, files) ==> i in r)
  {
    Select(ChapterFilter(pkg, base, files), 0, |pkg.spine|)
  }

  /** The chapter test as the filter the spine walk applies. */
  function ChapterFilter(pkg: Package, base: string, files: Files): (keep: nat -> bool)
  {
    var m := ManifestMap(pkg.manifest);
    (i: nat) => IsChapter(pkg.spine, m, i, base, files)
  }

  /** Positions of the spine entries dropped for a dangling idref, a non-markup type or a missing file. */
  function DroppedIndices(pkg: Package, base: string, files: Files): (r: seq<nat>)
    ensures var m := ManifestMap(pkg.manifest);
      && (forall k :: 0 <= k < |r| ==> r[k] < |pkg.spine| && !IsChapter(pkg.spine, m, r[k], base, files))
      && (forall i :: 0 <= i < |pkg.spine| && !IsChapter(pkg.spine, m, i, base, files) ==> i in r)
  {
    Rejected(ChapterFilter(pkg, base, files), 0, |pkg.spine|)
  }

  /** Each spine entry becomes a chapter or is dropped: the two counts add up to the spine length. */
  lemma ChaptersPlusDropped(pkg: Package, base: string, files: Files, find: Finder)
    ensures |SpineChapters(pkg, base, files, find)| + |DroppedIndices(pkg, base, files)| == |pkg.spine|
  {
    SelectPartition(ChapterFilter(pkg, base, files), 0, |pkg.spine|);
  }

  /**
    The chapter loop of `Parse`: spine entries in order, skipping dangling
    idrefs, non-markup media types and missing files; `Order` is the spine
    position.
   */
  function SpineChapters(pkg: Package, base: string, files: Files, find: Finder): (cs: seq<Chapter>)
    ensures var idx := ChapterIndices(pkg, base, files);
      && |cs| == |idx|
      && forall k :: 0 <= k < |cs| ==> cs[k] == ChapterAt(pkg.spine, ManifestMap(pkg.manifest), idx[k], base, files, find)
  {
    var m := ManifestMap(pkg.manifest);
    var idx := ChapterIndices(pkg, base, files);
    seq(|idx|, k requires 0 <= k < |idx| => ChapterAt(pkg.spine, m, idx[k], base, files, find))
  }

  /**
    Chapters come in spine order: there are at most as many as spine
    entries, each `Order` is the position of the spine entry it came from,
    the `Order` values strictly increase, and each title is the manifest id
    the spine entry names.
   */
  lemma ChaptersFollowSpine(pkg: Package, base: string, files: Files, find: Finder)
    ensures var cs := SpineChapters(pkg, base, files, find);
      && |cs| <= |pkg.spine|
      && StrictlyOrdered(cs)
      && forall k :: 0 <= k < |cs| ==> 0 <= cs[k].order < |pkg.spine| && cs[k].title == pkg.spine[cs[k].order].idref
  {
    var cs := SpineChapters(pkg, base, files, find);
    var idx := ChapterIndices(pkg, base, files);
    assert forall k :: 0 <= k < |cs| ==> cs[k].order == idx[k];
  }

  /**
    A spine entry yields a chapter exactly when its idref names a manifest
    item, that item's media type mentions "html" or "xml", and its file is
    in the archive; every other entry is dropped without an error.
   */
  lemma ChapterIffKept(pkg: Package, base: string, files: Files, find: Finder, i: nat)
    requires i < |pkg.spine|
    ensures var cs := SpineChapters(pkg, base, files, find);
      var m := ManifestMap(pkg.manifest);
      (exists k :: 0 <= k < |cs| && cs[k].order == i) <==> IsChapter(pkg.spine, m, i, base, files)
  {
    var cs := SpineChapters(pkg, base, files, find);
    var idx := ChapterIndices(pkg, base, files);
    var m := ManifestMap(pkg.manifest);
    assert forall k :: 0 <= k < |cs| ==> cs[k].order == idx[k];
    if IsChapter(pkg.spine, m, i, base, files) {
      var k :| 0 <= k < |idx| && idx[k] == i;
      assert cs[k].order == i;
    }
  }

  /** `Order` values that never decrease: what `sort.Slice` establishes. */
  predicate SortedByOrder(cs: seq<Chapter>)
  {
    forall k, l :: 0 <= k < l < |cs| ==> cs[k].order <= cs[l].order
  }

  /**
    Sorting strictly ordered chapters by `Order` changes nothing: the only
    rearrangement of them that is sorted by `Order` is the list itself, so
    the `sort.Slice` call after the spine walk is the identity.
   */
  lemma {:induction false} SortIsIdentity(xs: seq<Chapter>, ys: seq<Chapter>)
    requires StrictlyOrdered(xs)
    requires multiset(ys) == multiset(xs) && SortedByOrder(ys)
    ensures ys == xs
    decreases |xs|
  {
    assert |ys| == |multiset(ys)| == |multiset(xs)| == |xs|;
    if |xs| > 0 {
      SmallestFirst(xs, ys);
      TailsAgree(xs, ys);
      StrictTail(xs);
      SortedTail(ys);
      SortIsIdentity(xs[1..], ys[1..]);
      assert xs == [xs[0]] + xs[1..];
      assert ys == [ys[0]] + ys[1..];
    }
  }

  /** Both lists start with the chapter of least `Order`. */
  lemma SmallestFirst(xs: seq<Chapter>, ys: seq<Chapter>)
    requires |xs| > 0 && |ys| == |xs|
    requires StrictlyOrdered(xs)
    requires multiset(ys) == multiset(xs) && SortedByOrder(ys)
    ensures ys[0] == xs[0]
  {
    assert ys[0] in multiset(xs);
    var k :| 0 <= k < |xs| && xs[k] == ys[0];
    assert xs[0] in multiset(ys);
    var l :| 0 <= l < |ys| && ys[l] == xs[0];
    assert ys[0].order <= ys[l].order;
  }

  lemma TailsAgree(xs: seq<Chapter>, ys: seq<Chapter>)
    requires |xs| > 0 && |ys| > 0 && multiset(ys) == multiset(xs) && ys[0] == xs[0]
    ensures multiset(ys[1..]) == multiset(xs[1..])
  {
    assert xs == [xs[0]] + xs[1..];
    assert ys == [ys[0]] + ys[1..];
    assert multiset(ys[1..]) == multiset(ys) - multiset{ys[0]};
    assert multiset(xs[1..]) == multiset(xs) - multiset{xs[0]};
  }

  lemma StrictTail(xs: seq<Chapter>)
    requires |xs| > 0 && StrictlyOrdered(xs)
    ensures StrictlyOrdered(xs[1..])
  {
    forall k, l | 0 <= k < l < |xs| - 1
      ensures xs[1..][k].order < xs[1..][l].order
    {
      assert xs[1..][k] == xs[k + 1] && xs[1..][l] == xs[l + 1];
    }
  }

  lemma SortedTail(ys: seq<Chapter>)
    requires |ys| > 0 && SortedByOrder(ys)
    ensures SortedByOrder(ys[1..])
  {
    forall k, l | 0 <= k < l < |ys| - 1
      ensures ys[1..][k].order <= ys[1..][l].order
    {
      assert ys[1..][k] == ys[k + 1] && ys[1..][l] == ys[l + 1];
    }
  }

  /** The spine walk's output is left unchanged by sorting on `Order`. */
  lemma ChapterSortIsIdentity(pkg: Package, base: string, files: Files, find: Finder, sorted: seq<Chapter>)
    requires multiset(sorted) == multiset(SpineChapters(pkg, base, files, find)) && SortedByOrder(sorted)
    ensures sorted == SpineChapters(pkg, base, files, find)
  {
    ChaptersFollowSpine(pkg, base, files, find);
    SortIsIdentity(SpineChapters(pkg, base, files, find), sorted);
  }

  /**
    A package with one XHTML item on the spine and one style sheet in the
    manifest, both present in the archive, yields exactly one chapter, at
    order 0 and titled by the item's id, and exactly one style sheet.
   */
  lemma OneChapterOneStyleSheet(pkg: Package, base: string, files: Files, find: Finder,
                                chapterId: string, chapterHref: string, cssId: string, cssHref: string)
    requires pkg.manifest == [ManifestItem(chapterId, chapterHref, "application/xhtml+xml"), ManifestItem(cssId, cssHref, "text/css")]
    requires chapterId != cssId
    requires pkg.spine == [SpineItemRef(chapterId)]
    requires ResolvePath(base, chapterHref) in files && ResolvePath(base, cssHref) in files
    ensures var cs := SpineChapters(pkg, base, files, find);
      |cs| == 1 && cs[0].order == 0 && cs[0].title == chapterId
    ensures |StyleSheets(pkg.manifest, base, files, find)| == 1
  {
    var m := ManifestMap(pkg.manifest);
    assert ManifestMap(pkg.manifest[..1]) == map[chapterId := pkg.manifest[0]];
    assert m[chapterId] == pkg.manifest[0];
    assert OccursAt("application/xhtml+xml", "html", 13);
    assert IsChapter(pkg.spine, m, 0, base, files);
    var idx := ChapterIndices(pkg, base, files);
    assert 0 in idx;
    ChaptersFollowSpine(pkg, base, files, find);
    var css := StyleSheetIndices(pkg.manifest, base, files);
    assert 1 in css;
    assert !IsStyleSheet(pkg.manifest[0], base, files);
    assert forall k :: 0 <= k < |css| ==> css[k] == 1;
  }

  // ---------------------------------------------------------------------
  // Parse

  /** `Parse` after the archive is open: structural checks, then resolution. */
  function Parse(files: Files, decodeContainer: ContainerDecoder, decodePackage: PackageDecoder, find: Finder): (r: Result<Book, ParseError>)
    ensures ContainerPath !in files ==> r == Err(ContainerNotFound)
    ensures ContainerPath in files && decodeContainer(files[ContainerPath]).None? ==> r == Err(ContainerUnreadable)
    ensures ContainerPath in files && decodeContainer(files[ContainerPath]).Some? ==>
      var c := decodeContainer(files[ContainerPath]).value;
      && (|c.rootFiles| == 0 ==> r == Err(NoRootFile))
      && (|c.rootFiles| > 0 ==>
            var opf := c.rootFiles[0].fullPath;
            && (opf !in files ==> r == Err(PackageNotFound(opf)))
            && (opf in files && decodePackage(files[opf]).None? ==> r == Err(PackageUnreadable))
            && (opf in files && decodePackage(files[opf]).Some? ==>
                  var pkg := decodePackage(files[opf]).value;
                  var base := BaseDir(opf);
                  r == Ok(Book(pkg.metadata.title, pkg.metadata.creator,
                               SpineChapters(pkg, base, files, find),
                               StyleSheets(pkg.manifest, base, files, find), base))))
  {
    if ContainerPath !in files then Err(ContainerNotFound)
    else match decodeContainer(files[ContainerPath])
      case None => Err(ContainerUnreadable)
      case Some(c) =>
        if |c.rootFiles| == 0 then Err(NoRootFile)
        else
          var opf := c.rootFiles[0].fullPath;
          if opf !in files then Err(PackageNotFound(opf))
          else match decodePackage(files[opf])
            case None => Err(PackageUnreadable)
            case Some(pkg) =>
              var base := BaseDir(opf);
              Ok(Book(pkg.metadata.title, pkg.metadata.creator,
                      SpineChapters(pkg, base, files, find),
                      StyleSheets(pkg.manifest, base, files, find), base))
  }

  /**
    A successfully parsed book keeps the invariants of the spine and
    manifest walks: its base directory is never ".", it has no more
    chapters than the package has spine entries and no more style sheets
    than manifest items, its chapters' `Order` values strictly increase,
    and any rearrangement of the chapters sorted by `Order` is the chapter
    list itself.
   */
  lemma ParsedBook(files: Files, decodeContainer: ContainerDecoder, decodePackage: PackageDecoder, find: Finder,
                   sorted: seq<Chapter>)
    requires Parse(files, decodeContainer, decodePackage, find).Ok?
    requires multiset(sorted) == multiset(Parse(files, decodeContainer, decodePackage, find).value.chapters)
    requires SortedByOrder(sorted)
    ensures var b := Parse(files, decodeContainer, decodePackage, find).value;
      var c := decodeContainer(files[ContainerPath]).value;
      var opf := c.rootFiles[0].fullPath;
      var pkg := decodePackage(files[opf]).value;
      && b.basePath != "."
      && b.title == pkg.metadata.title && b.author == pkg.metadata.creator
      && |b.chapters| <= |pkg.spine| && |b.css| <= |pkg.manifest|
      && StrictlyOrdered(b.chapters)
      && sorted == b.chapters
  {
    var c := decodeContainer(files[ContainerPath]).value;
    var opf := c.rootFiles[0].fullPath;
    var pkg := decodePackage(files[opf]).value;
    var base := BaseDir(opf);
    ChaptersFollowSpine(pkg, base, files, find);
    ChapterSortIsIdentity(pkg, base, files, find, sorted);
  }
}
