/**
  How the parser turns a reference found in a package or content file into
  a stored entry name: `resolvePath` for manifest hrefs,
  `resolveRelativePath` for asset references (one leading "../" consumed
  per step, walking the base directory upward) and `normalizePath` for the
  last-chance lookup.
 */
module Resolve {
  import opened Strings
  import opened GoPath

  /** `resolvePath`: an empty base leaves the href as is, otherwise `path.Join`. */
  function ResolvePath(base: string, href: string): (r: string)
    ensures base == "" ==> r == href
    ensures base != "" ==> r != "" && Clean(r) == r
  {
    if base == "" then href
    else
      CleanIdempotent(base + "/" + href);
      Join(base, href)
  }

  /** `resolveRelativePath`; each step strips three bytes, so the recursion ends. */
  function ResolveRelativePath(base: string, href: string): (r: string)
    ensures base == "" ==> r == href
    ensures base != "" ==> r != "" && Clean(r) == r
    decreases |href|
  {
    if base == "" then href
    else if HasPrefix(href, "../") then ResolveRelativePath(Dir(base), href[3..])
    else
      CleanIdempotent(base + "/" + href);
      Join(base, href)
  }

  /** `normalizePath`: clean, then drop one leading separator. */
  function NormalizePath(p: string): (r: string)
    ensures !HasPrefix(r, "/")
    ensures r == Clean(p) || "/" + r == Clean(p)
  {
    TrimmedCleanShape(p);
    TrimPrefix(Clean(p), "/")
  }

  lemma TrimmedCleanShape(p: string)
    ensures !HasPrefix(TrimPrefix(Clean(p), "/"), "/")
  {
    CleanShape(p);
    var c := Clean(p);
    if HasPrefix(c, "/") && |c| >= 2 {
      assert c[..2] != "//";
      assert c[1] != '/';
      assert c[1..][..1] == [c[1]];
    }
  }

  /**
    The same resolution as an explicit bounded loop: strip one "../" and
    move the base up one directory per iteration, then join.
   */
  method ResolveRelativeLoop(base: string, href: string) returns (r: string)
    ensures r == ResolveRelativePath(base, href)
  {
    if base == "" {
      return href;
    }
    var b := base;
    var h := href;
    while HasPrefix(h, "../")
      invariant b != ""
      invariant ResolveRelativePath(b, h) == ResolveRelativePath(base, href)
      decreases |h|
    {
      b := Dir(b);
      h := h[3..];
    }
    r := Join(b, h);
  }

  /** `path.Dir` applied `n` times: where `n` leading "../" take the base. */
  function Up(base: string, n: nat): (r: string)
    ensures base != "" ==> r != ""
    decreases n
  {
    if n == 0 then base else Up(Dir(base), n - 1)
  }

  /** The number of leading "../" segments of `href`. */
  function ParentCount(href: string): (n: nat)
    ensures 3 * n <= |href|
    decreases |href|
  {
    if HasPrefix(href, "../") then 1 + ParentCount(href[3..]) else 0
  }

  /** After the counted "../" segments, no further one is left. */
  lemma {:induction false} ParentsConsumed(href: string)
    ensures !HasPrefix(href[3 * ParentCount(href)..], "../")
    decreases |href|
  {
    if HasPrefix(href, "../") {
      ParentsConsumed(href[3..]);
      ParentStep(href);
    } else {
      assert href[0..] == href;
    }
  }

  /**
    Closed form of the recursion for a non-empty base: all leading "../"
    are consumed, the base moves up once per segment, and what is left of
    the href is joined to it. Moving up never fails: it clamps at "." for
    a relative base and at "/" for a rooted one.
   */
  lemma {:induction false} ResolveRelativeClosedForm(base: string, href: string)
    requires base != ""
    ensures ResolveRelativePath(base, href) == Join(Up(base, ParentCount(href)), href[3 * ParentCount(href)..])
    decreases |href|
  {
    if HasPrefix(href, "../") {
      ResolveRelativeClosedForm(Dir(base), href[3..]);
      ClosedFormStep(base, href);
    } else {
      ClosedFormStop(base, href);
    }
  }

  /** The inductive step of the closed form: one "../" peeled off and one level up. */
  lemma ClosedFormStep(base: string, href: string)
    requires base != "" && HasPrefix(href, "../")
    requires var t := href[3..];
      ResolveRelativePath(Dir(base), t) == Join(Up(Dir(base), ParentCount(t)), t[3 * ParentCount(t)..])
    ensures ResolveRelativePath(base, href) == Join(Up(base, ParentCount(href)), href[3 * ParentCount(href)..])
  {
    var t, up := href[3..], Dir(base);
    var n, m := ParentCount(href), ParentCount(t);
    assert ResolveRelativePath(base, href) == ResolveRelativePath(up, t) by {
      ResolveStep(base, href);
    }
    assert n == m + 1 && t[3 * m..] == href[3 * n..] by {
      ParentStep(href);
    }
    assert Up(base, m + 1) == Up(up, m) by {
      UpStep(base, m);
    }
  }

  /** The base case of the closed form: no "../" left, so the href is joined as is. */
  lemma ClosedFormStop(base: string, href: string)
    requires base != "" && !HasPrefix(href, "../")
    ensures ResolveRelativePath(base, href) == Join(Up(base, ParentCount(href)), href[3 * ParentCount(href)..])
  {
    assert ResolveRelativePath(base, href) == Join(base, href) && ParentCount(href) == 0 by {
      ResolveStop(base, href);
    }
    assert Up(base, 0) == base && href[0..] == href;
  }

  lemma ResolveStep(base: string, href: string)
    requires base != "" && HasPrefix(href, "../")
    ensures ResolveRelativePath(base, href) == ResolveRelativePath(Dir(base), href[3..])
  {
  }

  lemma ResolveStop(base: string, href: string)
    requires base != "" && !HasPrefix(href, "../")
    ensures ResolveRelativePath(base, href) == Join(base, href)
    ensures ParentCount(href) == 0
  {
  }

  lemma UpStep(base: string, m: nat)
    ensures Up(base, m + 1) == Up(Dir(base), m)
  {
  }

  /** Peeling one "../" off the front leaves the same remainder after all of them. */
  lemma ParentStep(href: string)
    requires HasPrefix(href, "../")
    ensures ParentCount(href) == ParentCount(href[3..]) + 1
    ensures href[3..][3 * ParentCount(href[3..])..] == href[3 * ParentCount(href)..]
  {
  }

  /** Walking up from "." stays at ".": extra "../" segments clamp at the root. */
  lemma {:induction false} UpClampsAtDot(n: nat)
    ensures Up(".", n) == "."
  {
    if n > 0 {
      DirOfElement(".");
      UpClampsAtDot(n - 1);
    }
  }

  /** One resolution step: a leading "../" moves a non-empty base up one directory. */
  lemma StepUp(base: string, rest: string)
    requires base != ""
    ensures ResolveRelativePath(base, "../" + rest) == ResolveRelativePath(Dir(base), rest)
  {
    var h := "../" + rest;
    assert h[..3] == "../" && h[3..] == rest;
  }

  /** A name holds no "../" prefix, so resolution stops at it. */
  lemma NameIsFinal(base: string, file: string)
    requires base != "" && IsName(file)
    ensures ResolveRelativePath(base, file) == Join(base, file)
  {
    if |file| >= 3 {
      assert file[2] in file;
      assert file[..3][2] != '/';
    }
    assert !HasPrefix(file, "../");
  }

  /**
    Three leading "../" against the two-level base "a/b" clamp at the
    archive root instead of failing: the reference resolves to the bare
    file name.
   */
  lemma ThreeUpFromTwoLevels(a: string, b: string, file: string)
    requires IsName(a) && IsElement(b) && IsName(file)
    ensures ResolveRelativePath(a + "/" + b, "../../../" + file) == file
  {
    var ab := a + "/" + b;
    assert "../../../" + file == "../" + ("../" + ("../" + file));
    assert ResolveRelativePath(ab, "../" + ("../" + ("../" + file))) == ResolveRelativePath(a, "../" + ("../" + file)) by {
      StepUp(ab, "../" + ("../" + file));
      DirOfTwo(a, b);
    }
    assert ResolveRelativePath(a, "../" + ("../" + file)) == ResolveRelativePath(".", "../" + file) by {
      StepUp(a, "../" + file);
      DirOfElement(a);
    }
    assert ResolveRelativePath(".", "../" + file) == ResolveRelativePath(".", file) by {
      StepUp(".", file);
      DirOfElement(".");
    }
    assert ResolveRelativePath(".", file) == file by {
      NameIsFinal(".", file);
      JoinDot(file);
    }
  }
}
