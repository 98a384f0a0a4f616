/**
  Document assembly: `escapeHTML`, `extractBodyContent` and `Book.ToHTML`.
  Case folding is ASCII only.
 */
module Html {
  import opened Wrappers
  import opened Strings
  import opened Epub

  // ---------------------------------------------------------------------
  // Escaping

  predicate IsSpecial(c: char)
  {
    c == '&' || c == '<' || c == '>' || c == '"'
  }

  /** The named character reference for a special byte; other bytes stand for themselves. */
  function Entity(c: char): string
  {
    if c == '&' then "&amp;"
    else if c == '<' then "&lt;"
    else if c == '>' then "&gt;"
    else if c == '"' then "&quot;"
    else [c]
  }

  /** Escaping in a single left-to-right pass, each byte replaced once. */
  function EscapeOnce(s: string): (r: string)
    ensures |r| >= |s|
  {
    if s == [] then [] else Entity(s[0]) + EscapeOnce(s[1..])
  }

  /** `escapeHTML`: four `ReplaceAll` passes, `&` first. */
  function EscapeHtml(s: string): (r: string)
    ensures '<' !in r && '>' !in r && '"' !in r
  {
    var amp := ReplaceChar(s, '&', "&amp;");
    var lt := ReplaceChar(amp, '<', "&lt;");
    var gt := ReplaceChar(lt, '>', "&gt;");
    var quot := ReplaceChar(gt, '"', "&quot;");
    assert '<' !in gt by {
      ReplaceCharKeepsAbsent(lt, '>', "&gt;", '<');
    }
    assert '<' !in quot && '>' !in quot by {
      ReplaceCharKeepsAbsent(gt, '"', "&quot;", '<');
      ReplaceCharKeepsAbsent(gt, '"', "&quot;", '>');
    }
    quot
  }

  lemma EscapeHtmlAppend(a: string, b: string)
    ensures EscapeHtml(a + b) == EscapeHtml(a) + EscapeHtml(b)
  {
    ReplaceCharAppend(a, b, '&', "&amp;");
    var a1, b1 := ReplaceChar(a, '&', "&amp;"), ReplaceChar(b, '&', "&amp;");
    ReplaceCharAppend(a1, b1, '<', "&lt;");
    var a2, b2 := ReplaceChar(a1, '<', "&lt;"), ReplaceChar(b1, '<', "&lt;");
    ReplaceCharAppend(a2, b2, '>', "&gt;");
    var a3, b3 := ReplaceChar(a2, '>', "&gt;"), ReplaceChar(b2, '>', "&gt;");
    ReplaceCharAppend(a3, b3, '"', "&quot;");
  }

  lemma ReplaceOne(c: char, x: char, rep: string)
    ensures ReplaceChar([c], x, rep) == if c == x then rep else [c]
  {
    assert [c][1..] == [];
  }

  /** Later passes leave a text alone when it holds none of their bytes. */
  lemma PassesSkip(t: string)
    requires '<' !in t && '>' !in t && '"' !in t
    ensures ReplaceChar(ReplaceChar(ReplaceChar(t, '<', "&lt;"), '>', "&gt;"), '"', "&quot;") == t
  {
  }

  lemma EscapeAmp()
    ensures EscapeHtml("&") == "&amp;"
  {
    ReplaceOne('&', '&', "&amp;");
    PassesSkip("&amp;");
  }

  lemma EscapeLt()
    ensures EscapeHtml("<") == "&lt;"
  {
    ReplaceOne('<', '&', "&amp;");
    ReplaceOne('<', '<', "&lt;");
    assert '>' !in "&lt;" && '"' !in "&lt;";
  }

  lemma EscapeGt()
    ensures EscapeHtml(">") == "&gt;"
  {
    ReplaceOne('>', '&', "&amp;");
    ReplaceOne('>', '<', "&lt;");
    ReplaceOne('>', '>', "&gt;");
    assert '"' !in "&gt;";
  }

  lemma EscapeQuot()
    ensures EscapeHtml("\"") == "&quot;"
  {
    ReplaceOne('"', '&', "&amp;");
    ReplaceOne('"', '<', "&lt;");
    ReplaceOne('"', '>', "&gt;");
    ReplaceOne('"', '"', "&quot;");
  }

  lemma EscapeOrdinary(c: char)
    requires !IsSpecial(c)
    ensures EscapeHtml([c]) == [c]
  {
    ReplaceOne(c, '&', "&amp;");
    ReplaceOne(c, '<', "&lt;");
    ReplaceOne(c, '>', "&gt;");
    ReplaceOne(c, '"', "&quot;");
  }

  lemma EscapeHtmlChar(c: char)
    ensures EscapeHtml([c]) == Entity(c)
  {
    if c == '&' {
      EscapeAmp();
    } else if c == '<' {
      EscapeLt();
    } else if c == '>' {
      EscapeGt();
    } else if c == '"' {
      EscapeQuot();
    } else {
      EscapeOrdinary(c);
    }
  }

  /**
    The four passes equal one pass that replaces every special byte by its
    reference exactly once: because `&` goes first, `<` becomes `&lt;` and
    never `&amp;lt;`.
   */
  lemma {:induction false} EscapeHtmlIsSinglePass(s: string)
    ensures EscapeHtml(s) == EscapeOnce(s)
    decreases |s|
  {
    if s != [] {
      assert s == [s[0]] + s[1..];
      EscapeHtmlAppend([s[0]], s[1..]);
      EscapeHtmlChar(s[0]);
      EscapeHtmlIsSinglePass(s[1..]);
    }
  }

  /** Escaping changes a string exactly when it holds one of `&`, `<`, `>`, `"`. */
  lemma {:induction false} EscapeOnceIdentityIff(s: string)
    ensures EscapeOnce(s) == s <==> forall i :: 0 <= i < |s| ==> !IsSpecial(s[i])
    decreases |s|
  {
    if s != [] {
      EscapeOnceIdentityIff(s[1..]);
      assert forall i :: 1 <= i < |s| ==> s[i] == s[1..][i - 1];
      if IsSpecial(s[0]) {
        assert |EscapeOnce(s)| > |s|;
      } else {
        assert EscapeOnce(s) == [s[0]] + EscapeOnce(s[1..]);
        if EscapeOnce(s) == s {
          assert EscapeOnce(s[1..]) == s[1..];
        }
      }
    }
  }

  /** `escapeHTML` is the identity exactly on strings without `&`, `<`, `>` and `"`. */
  lemma EscapeHtmlIdentityIff(s: string)
    ensures EscapeHtml(s) == s <==> forall i :: 0 <= i < |s| ==> !IsSpecial(s[i])
  {
    EscapeHtmlIsSinglePass(s);
    EscapeOnceIdentityIff(s);
  }

  /** Decodes the four references `escapeHTML` produces, left to right. */
  function UnescapeHtml(s: string): (r: string)
    decreases |s|
  {
    if s == [] then []
    else if HasPrefix(s, "&amp;") then "&" + UnescapeHtml(s[5..])
    else if HasPrefix(s, "&lt;") then "<" + UnescapeHtml(s[4..])
    else if HasPrefix(s, "&gt;") then ">" + UnescapeHtml(s[4..])
    else if HasPrefix(s, "&quot;") then "\"" + UnescapeHtml(s[6..])
    else [s[0]] + UnescapeHtml(s[1..])
  }

  /** An entity whose second byte differs from that of `t` cannot start `t + s`. */
  lemma NotEntity(s: string, t: string, e: string)
    requires |t| >= 2 && |e| >= 2 && t[0] == '&' && t[1] != e[1]
    ensures !HasPrefix(t + s, e)
  {
    assert (t + s)[1] == t[1];
  }

  lemma StartsWith(t: string, rest: string)
    ensures HasPrefix(t + rest, t) && (t + rest)[|t|..] == rest
  {
    assert (t + rest)[..|t|] == t;
  }

  lemma UnescapeSpecial(c: char, rest: string)
    requires IsSpecial(c)
    ensures UnescapeHtml(Entity(c) + rest) == [c] + UnescapeHtml(rest)
  {
    var t := Entity(c);
    StartsWith(t, rest);
    if c == '<' {
      NotEntity(rest, t, "&amp;");
    } else if c == '>' {
      NotEntity(rest, t, "&amp;");
      NotEntity(rest, t, "&lt;");
    } else if c == '"' {
      NotEntity(rest, t, "&amp;");
      NotEntity(rest, t, "&lt;");
      NotEntity(rest, t, "&gt;");
    }
  }

  lemma PrefixHead(s: string, t: string)
    requires |t| > 0 && HasPrefix(s, t)
    ensures s[0] == t[0]
  {
    assert s[..|t|][0] == s[0];
  }

  lemma UnescapeOrdinary(c: char, rest: string)
    requires !IsSpecial(c)
    ensures UnescapeHtml([c] + rest) == [c] + UnescapeHtml(rest)
  {
    var s := [c] + rest;
    assert s[0] == c;
    assert s[1..] == rest;
    if HasPrefix(s, "&amp;") {
      PrefixHead(s, "&amp;");
    }
    if HasPrefix(s, "&lt;") {
      PrefixHead(s, "&lt;");
    }
    if HasPrefix(s, "&gt;") {
      PrefixHead(s, "&gt;");
    }
    if HasPrefix(s, "&quot;") {
      PrefixHead(s, "&quot;");
    }
  }

  lemma UnescapeEntity(c: char, rest: string)
    ensures UnescapeHtml(Entity(c) + rest) == [c] + UnescapeHtml(rest)
  {
    if IsSpecial(c) {
      UnescapeSpecial(c, rest);
    } else {
      UnescapeOrdinary(c, rest);
    }
  }

  /** Escaped text decodes back to the original: escaping loses nothing. */
  lemma {:induction false} UnescapeEscape(s: string)
    ensures UnescapeHtml(EscapeHtml(s)) == s
    decreases |s|
  {
    EscapeHtmlIsSinglePass(s);
    if s != [] {
      UnescapeEntity(s[0], EscapeOnce(s[1..]));
      UnescapeEscape(s[1..]);
      EscapeHtmlIsSinglePass(s[1..]);
      assert [s[0]] + s[1..] == s;
    }
  }

  // ---------------------------------------------------------------------
  // Body extraction

  /** `t` occurs at `i` and nowhere before. */
  predicate IsFirst(s: string, t: string, i: int)
  {
    OccursAt(s, t, i) && forall j :: 0 <= j < i ==> !OccursAt(s, t, j)
  }

  /** `t` occurs at `i` and nowhere after. */
  predicate IsLast(s: string, t: string, i: int)
  {
    OccursAt(s, t, i) && forall j :: i < j < |s| ==> !OccursAt(s, t, j)
  }

  /**
    `extractBodyContent`. Positions are searched in the lower-cased text and
    used to slice the original. `None` stands for the run-time panic of the
    Go slice expression when the last `</body>` lies before the end of the
    opening tag.
   */
  function ExtractBodyContent(html: string): (r: Option<string>)
    ensures !Contains(ToLower(html), "<body") ==> r == Some(html)
  {
    var lower := ToLower(html);
    var bodyStart := Index(lower, "<body");
    if bodyStart == -1 then Some(html)
    else
      var tagEnd := Index(html[bodyStart..], ">");
      if tagEnd == -1 then Some(html)
      else
        var start := bodyStart + tagEnd + 1;
        var last := LastIndex(lower, "</body>");
        var end := if last == -1 then |html| else last;
        if start <= end then Some(html[start..end]) else None
  }

  /** Without a `>` after the first case-insensitive `<body`, the text is returned whole. */
  lemma ExtractWithoutTagEnd(html: string, p: int)
    requires IsFirst(ToLower(html), "<body", p)
    requires !Contains(html[p..], ">")
    ensures ExtractBodyContent(html) == Some(html)
  {
    FirstIsIndex(ToLower(html), "<body", p);
  }

  lemma FirstIsIndex(s: string, t: string, p: int)
    requires IsFirst(s, t, p)
    ensures Index(s, t) == p
  {
  }

  lemma LastIsLastIndex(s: string, t: string, e: int)
    requires |t| > 0 && IsLast(s, t, e)
    ensures LastIndex(s, t) == e
  {
  }

  /** `extractBodyContent` once both the opening tag and its `>` are found. */
  lemma ExtractFound(html: string, p: int, q: int)
    requires Index(ToLower(html), "<body") == p && 0 <= p
    requires Index(html[p..], ">") == q && 0 <= q
    ensures var last := LastIndex(ToLower(html), "</body>");
      var end := if last == -1 then |html| else last;
      ExtractBodyContent(html) == if p + q + 1 <= end then Some(html[p + q + 1..end]) else None
  {
  }

  /**
    Where the first case-insensitive `<body` starts at `p`, the first `>`
    after it is `q` bytes further and the last case-insensitive `</body>`
    starts at `e`, the body is the text strictly between the two; it is
    `None` (the slice panics) when that closing tag starts before the body.
   */
  lemma ExtractBetween(html: string, p: int, q: int, e: int)
    requires IsFirst(ToLower(html), "<body", p)
    requires IsFirst(html[p..], ">", q)
    requires IsLast(ToLower(html), "</body>", e)
    ensures ExtractBodyContent(html).Some? <==> p + q + 1 <= e
    ensures p + q + 1 <= e ==> ExtractBodyContent(html) == Some(html[p + q + 1..e])
  {
    FirstIsIndex(ToLower(html), "<body", p);
    FirstIsIndex(html[p..], ">", q);
    LastIsLastIndex(ToLower(html), "</body>", e);
    ExtractFound(html, p, q);
  }

  /** Without any case-insensitive `</body>`, the body runs to the end of the text. */
  lemma ExtractToEnd(html: string, p: int, q: int)
    requires IsFirst(ToLower(html), "<body", p)
    requires IsFirst(html[p..], ">", q)
    requires !Contains(ToLower(html), "</body>")
    ensures ExtractBodyContent(html) == Some(html[p + q + 1..])
  {
    FirstIsIndex(ToLower(html), "<body", p);
    FirstIsIndex(html[p..], ">", q);
    ExtractFound(html, p, q);
    assert html[p + q + 1..|html|] == html[p + q + 1..];
  }

  lemma OpenTagFirst(html: string, attrs: string, rest: string)
    requires html == "<body" + attrs + rest
    ensures IsFirst(ToLower(html), "<body", 0)
  {
    var lower := ToLower(html);
    assert forall i :: 0 <= i < 5 ==> html[i] == "<body"[i];
    assert lower[..5] == "<body";
  }

  lemma TagEndFirst(html: string, attrs: string, rest: string)
    requires '>' !in attrs
    requires html == "<body" + attrs + ">" + rest
    ensures IsFirst(html[0..], ">", |attrs| + 5)
  {
    var q := |attrs| + 5;
    assert html[0..] == html;
    assert forall j :: 5 <= j < q ==> html[j] == attrs[j - 5];
    OccursOneChar(html, '>', q);
    forall j | 0 <= j < q
      ensures !OccursAt(html, ">", j)
    {
      OccursOneChar(html, '>', j);
    }
  }

  lemma CloseTagLast(html: string, front: string)
    requires html == front + "</body>"
    ensures IsLast(ToLower(html), "</body>", |front|)
  {
    var lower := ToLower(html);
    var e := |front|;
    forall i | 0 <= i < 7
      ensures lower[e + i] == "</body>"[i]
    {
      assert html[e + i] == "</body>"[i];
    }
    assert lower[e..e + 7] == "</body>";
  }

  /** The body of a document wrapped in `<body …>` and `</body>` is recovered exactly. */
  lemma ExtractWrapped(attrs: string, inner: string)
    requires '>' !in attrs
    ensures ExtractBodyContent("<body" + attrs + ">" + inner + "</body>") == Some(inner)
  {
    var open := "<body" + attrs + ">";
    var html := open + inner + "</body>";
    assert html == "<body" + attrs + (">" + inner + "</body>");
    OpenTagFirst(html, attrs, ">" + inner + "</body>");
    assert html == "<body" + attrs + ">" + (inner + "</body>");
    TagEndFirst(html, attrs, inner + "</body>");
    CloseTagLast(html, open + inner);
    ExtractBetween(html, 0, |attrs| + 5, |open| + |inner|);
    assert html[|open|..|open| + |inner|] == inner;
  }

  // ---------------------------------------------------------------------
  // Assembly

  /** The fixed baseline style rules placed before the book's own style sheets. */
  const BaseStyle: string

  const Preamble: string := "<!DOCTYPE html>\n<html>\n<head>\n<meta charset=\"UTF-8\">\n"
  const StyleOpen: string := "<style>\n"
  const StyleClose: string := "</style>\n</head>\n<body>\n"
  const Closing: string := "</body>\n</html>"

  /** The style sheets, each followed by a newline, in order. */
  function StyleBlock(css: seq<string>): (r: string)
    ensures r == "" <==> css == []
    ensures css != [] ==> HasPrefix(r, css[0] + "\n")
  {
    if css == [] then ""
    else
      var line := css[0] + "\n";
      assert (line + StyleBlock(css[1..]))[..|line|] == line;
      line + StyleBlock(css[1..])
  }

  /** The document preamble up to and including the escaped `<title>` line. */
  function TitleLine(b: Book): (r: string)
    ensures exists e ::
      && r == Preamble + "<title>" + e + "</title>\n"
      && '<' !in e && UnescapeHtml(e) == b.title
  {
    UnescapeEscape(b.title);
    Preamble + "<title>" + EscapeHtml(b.title) + "</title>\n"
  }

  /** The `<style>` element, holding the baseline rules and the book's sheets, and the end of the head. */
  function StyleSection(b: Book): string
  {
    StyleOpen + BaseStyle + StyleBlock(b.css) + StyleClose
  }

  /** The escaped author paragraph, present only for a non-empty author. */
  function AuthorLine(author: string): (r: string)
    ensures r == "" <==> author == ""
    ensures r != "" ==> exists e :: r == "<p class=\"author\">" + e + "</p>\n" && UnescapeHtml(e) == author
  {
    if author == "" then ""
    else
      var e := EscapeHtml(author);
      UnescapeEscape(author);
      "<p class=\"author\">" + e + "</p>\n"
  }

  /** The title page: the escaped title as a heading, then the author line. */
  function TitlePage(b: Book): (r: string)
    ensures exists e ::
      && r == "<div class=\"title-page\">\n" + "<h1>" + e + "</h1>\n" + AuthorLine(b.author) + "</div>\n"
      && '<' !in e && UnescapeHtml(e) == b.title
  {
    UnescapeEscape(b.title);
    "<div class=\"title-page\">\n"
      + "<h1>" + EscapeHtml(b.title) + "</h1>\n"
      + AuthorLine(b.author)
      + "</div>\n"
  }

  /** Everything before the chapters: title line, style section, title page. */
  function Front(b: Book): string
  {
    TitleLine(b) + StyleSection(b) + TitlePage(b)
  }

  /** One chapter's body in its own `chapter` division. */
  function ChapterBlock(body: string): (r: string)
    ensures |r| == |body| + 30
    ensures HasPrefix(r, "<div class=\"chapter\">\n") && HasSuffix(r, "\n</div>\n")
    ensures r[22..|r| - 8] == body
  {
    var open := "<div class=\"chapter\">\n";
    var close := "\n</div>\n";
    var r := open + body + close;
    assert r[..22] == open && r[22..|r| - 8] == body && r[|r| - 8..] == close;
    r
  }

  /** The extraction result of every chapter, in order. */
  function Bodies(chapters: seq<Chapter>): (r: seq<Option<string>>)
    ensures |r| == |chapters|
    ensures forall k :: 0 <= k < |r| ==> r[k] == ExtractBodyContent(chapters[k].content)
  {
    seq(|chapters|, k requires 0 <= k < |chapters| => ExtractBodyContent(chapters[k].content))
  }

  /** The divisions for a list of extraction results; `None` if any of them is `None`. */
  function Blocks(bodies: seq<Option<string>>): (r: Option<string>)
    ensures r.Some? <==> forall k :: 0 <= k < |bodies| ==> bodies[k].Some?
    ensures r.Some? && bodies != [] ==> HasPrefix(r.value, ChapterBlock(bodies[0].value))
  {
    if bodies == [] then Some("")
    else if bodies[0].None? then None
    else match Blocks(bodies[1..])
      case None => None
      case Some(rest) =>
        var first := ChapterBlock(bodies[0].value);
        assert (first + rest)[..|first|] == first;
        Some(first + rest)
  }

  /** Both parts present, concatenated; otherwise absent. */
  function Then(a: Option<string>, b: Option<string>): (r: Option<string>)
    ensures r.Some? <==> a.Some? && b.Some?
  {
    if a.Some? && b.Some? then Some(a.value + b.value) else None
  }

  /** The divisions of two lists of results are those of the first followed by those of the second. */
  lemma {:induction false} BlocksAppend(a: seq<Option<string>>, b: seq<Option<string>>)
    ensures Blocks(a + b) == Then(Blocks(a), Blocks(b))
    decreases |a|
  {
    if a == [] {
      assert a + b == b;
      if Blocks(b).Some? {
        assert "" + Blocks(b).value == Blocks(b).value;
      }
    } else {
      assert (a + b)[0] == a[0];
      assert (a + b)[1..] == a[1..] + b;
      BlocksAppend(a[1..], b);
      if a[0].Some? && Blocks(a[1..]).Some? && Blocks(b).Some? {
        var x, y, z := ChapterBlock(a[0].value), Blocks(a[1..]).value, Blocks(b).value;
        assert x + (y + z) == (x + y) + z;
      }
    }
  }

  /** Result `k` sits in its own division between the divisions of the earlier and the later results. */
  lemma BlocksAt(bodies: seq<Option<string>>, k: nat)
    requires k < |bodies| && Blocks(bodies).Some?
    ensures Blocks(bodies[..k]).Some? && bodies[k].Some? && Blocks(bodies[k + 1..]).Some?
    ensures Blocks(bodies).value ==
      Blocks(bodies[..k]).value + (ChapterBlock(bodies[k].value) + Blocks(bodies[k + 1..]).value)
  {
    var rest := bodies[k..];
    assert bodies == bodies[..k] + rest;
    BlocksAppend(bodies[..k], rest);
    assert rest[0] == bodies[k] && rest[1..] == bodies[k + 1..];
  }

  /** Every chapter's body, each in its own `chapter` division; `None` if an extraction panics. */
  function ChapterBlocks(chapters: seq<Chapter>): (r: Option<string>)
    ensures r.Some? <==> forall k :: 0 <= k < |chapters| ==> ExtractBodyContent(chapters[k].content).Some?
    ensures r.Some? && chapters != [] ==>
      HasPrefix(r.value, ChapterBlock(ExtractBodyContent(chapters[0].content).value))
  {
    Blocks(Bodies(chapters))
  }

  /**
    Chapter `k`'s extracted body sits in its own division after the
    divisions of all earlier chapters and before those of all later ones.
   */
  lemma ChapterBlocksAt(chapters: seq<Chapter>, k: nat)
    requires k < |chapters| && ChapterBlocks(chapters).Some?
    ensures ChapterBlocks(chapters[..k]).Some? && ChapterBlocks(chapters[k + 1..]).Some?
    ensures ExtractBodyContent(chapters[k].content).Some?
    ensures ChapterBlocks(chapters).value ==
      ChapterBlocks(chapters[..k]).value
      + (ChapterBlock(ExtractBodyContent(chapters[k].content).value) + ChapterBlocks(chapters[k + 1..]).value)
  {
    var bs := Bodies(chapters);
    BlocksAt(bs, k);
    assert Bodies(chapters[..k]) == bs[..k];
    assert Bodies(chapters[k + 1..]) == bs[k + 1..];
  }

  /** The style sheets of two lists are those of the first followed by those of the second. */
  lemma {:induction false} StyleBlockAppend(a: seq<string>, b: seq<string>)
    ensures StyleBlock(a + b) == StyleBlock(a) + StyleBlock(b)
    decreases |a|
  {
    if a == [] {
      assert a + b == b;
    } else {
      assert (a + b)[0] == a[0];
      assert (a + b)[1..] == a[1..] + b;
      StyleBlockAppend(a[1..], b);
      var x, y, z := a[0] + "\n", StyleBlock(a[1..]), StyleBlock(b);
      assert x + (y + z) == (x + y) + z;
    }
  }

  /** Style sheet `k`, followed by a newline, sits after all earlier sheets and before all later ones. */
  lemma StyleBlockAt(css: seq<string>, k: nat)
    requires k < |css|
    ensures StyleBlock(css) == StyleBlock(css[..k]) + (css[k] + "\n" + StyleBlock(css[k + 1..]))
  {
    var rest := css[k..];
    assert css == css[..k] + rest;
    StyleBlockAppend(css[..k], rest);
    assert rest[0] == css[k] && rest[1..] == css[k + 1..];
  }

  lemma Framed(first: string, middle: string, last: string)
    ensures HasPrefix(first + middle + last, first)
    ensures HasSuffix(first + middle + last, last)
  {
    var s := first + middle + last;
    assert s[..|first|] == first;
    assert s[|s| - |last|..] == last;
  }

  /**
    `Book.ToHTML`: the head with the escaped title and every style sheet,
    the title page, then the chapters in order; `None` exactly when the
    body extraction of some chapter panics.
   */
  function ToHtml(b: Book): (r: Option<string>)
    ensures r.Some? <==> forall k :: 0 <= k < |b.chapters| ==> ExtractBodyContent(b.chapters[k].content).Some?
    ensures r.Some? ==>
      && HasPrefix(r.value, TitleLine(b))
      && HasSuffix(r.value, Closing)
      && r.value == Front(b) + ChapterBlocks(b.chapters).value + Closing
  {
    match ChapterBlocks(b.chapters)
    case None => None
    case Some(body) =>
      var t, rest := TitleLine(b), StyleSection(b) + TitlePage(b) + body;
      assert HasPrefix(Front(b) + body + Closing, t) && HasSuffix(Front(b) + body + Closing, Closing) by {
        Framed(t, rest, Closing);
        Assoc(t, StyleSection(b), TitlePage(b), body);
      }
      Some(Front(b) + body + Closing)
  }

  lemma Assoc(a: string, b: string, c: string, d: string)
    ensures a + (b + c + d) == a + b + c + d
  {
  }

  lemma Regroup(a: string, b: string, c: string, d: string, e: string)
    ensures a + (b + (c + d)) + e == (a + b) + c + (d + e)
  {
  }

  lemma RegroupStyle(t: string, so: string, bs: string, front: string, item: string, back: string,
                     sc: string, tp: string, body: string, z: string)
    ensures t + (so + bs + (front + (item + back)) + sc) + tp + body + z
         == (t + so + bs + front) + item + (back + sc + tp + body + z)
  {
  }

  /**
    In the document, style sheet `k`, followed by a newline, comes after
    the baseline rules and all earlier sheets and before all later sheets,
    the end of the head, the title page and the chapters.
   */
  lemma ToHtmlStyleSheetAt(b: Book, k: nat)
    requires ToHtml(b).Some? && k < |b.css|
    ensures ToHtml(b).value ==
      (TitleLine(b) + StyleOpen + BaseStyle + StyleBlock(b.css[..k]))
      + (b.css[k] + "\n")
      + (StyleBlock(b.css[k + 1..]) + StyleClose + TitlePage(b) + ChapterBlocks(b.chapters).value + Closing)
  {
    var front, back := StyleBlock(b.css[..k]), StyleBlock(b.css[k + 1..]);
    StyleBlockAt(b.css, k);
    RegroupStyle(TitleLine(b), StyleOpen, BaseStyle, front, b.css[k] + "\n", back,
                 StyleClose, TitlePage(b), ChapterBlocks(b.chapters).value, Closing);
  }

  /**
    In the document, chapter `k`'s extracted body, in its own division,
    comes after the title page and all earlier chapters and before all
    later chapters and the closing tags.
   */
  lemma ToHtmlChapterAt(b: Book, k: nat)
    requires ToHtml(b).Some? && k < |b.chapters|
    ensures ChapterBlocks(b.chapters[..k]).Some? && ChapterBlocks(b.chapters[k + 1..]).Some?
    ensures ExtractBodyContent(b.chapters[k].content).Some?
    ensures ToHtml(b).value ==
      (Front(b) + ChapterBlocks(b.chapters[..k]).value)
      + ChapterBlock(ExtractBodyContent(b.chapters[k].content).value)
      + (ChapterBlocks(b.chapters[k + 1..]).value + Closing)
  {
    ChapterBlocksAt(b.chapters, k);
    var front, back := ChapterBlocks(b.chapters[..k]).value, ChapterBlocks(b.chapters[k + 1..]).value;
    var block := ChapterBlock(ExtractBodyContent(b.chapters[k].content).value);
    Regroup(Front(b), front, block, back, Closing);
  }
}
