/**
  Lexical model of Go's `path` package (`Clean`, `Join`, `Dir`) on
  '/'-separated strings. `Clean` follows the four rules Go documents:
  collapse repeated separators, drop `.` elements, let `..` cancel the
  element before it, and drop `..` directly under a root `/`. An empty
  result becomes ".".
 */
module GoPath {
  import opened Strings

  /** An element of a path: non-empty and free of separators. */
  predicate IsElement(e: string)
  {
    e != "" && '/' !in e
  }

  predicate AllElements(xs: seq<string>)
  {
    forall i :: 0 <= i < |xs| ==> IsElement(xs[i])
  }

  /** Position of the first '/' at or after `i`, or |p|. */
  function ElementEnd(p: string, i: nat): (k: nat)
    requires i <= |p|
    ensures i <= k <= |p|
    ensures '/' !in p[i..k]
    ensures k < |p| ==> p[k] == '/'
    decreases |p| - i
  {
    if i == |p| || p[i] == '/' then i else ElementEnd(p, i + 1)
  }

  /** The non-empty elements of `p`, in order (empty elements skipped). */
  function Elements(p: string): (r: seq<string>)
    ensures AllElements(r)
    decreases |p|
  {
    if p == "" then []
    else if p[0] == '/' then Elements(p[1..])
    else
      var k := ElementEnd(p, 0);
      [p[..k]] + Elements(p[k..])
  }

  /** Elements joined with single separators. */
  function JoinElements(xs: seq<string>): (r: string)
  {
    if |xs| == 0 then ""
    else if |xs| == 1 then xs[0]
    else xs[0] + "/" + JoinElements(xs[1..])
  }

  /**
    Processes elements left to right against a stack: `.` is dropped,
    `..` pops a real element, is dropped under a root, and is kept
    otherwise; every other element is pushed.
   */
  function Reduce(rooted: bool, stack: seq<string>, xs: seq<string>): (r: seq<string>)
    requires AllElements(stack) && AllElements(xs)
    ensures AllElements(r)
    decreases |xs|
  {
    if xs == [] then stack
    else if xs[0] == "." then Reduce(rooted, stack, xs[1..])
    else if xs[0] == ".." then
      if |stack| > 0 && stack[|stack| - 1] != ".." then Reduce(rooted, stack[..|stack| - 1], xs[1..])
      else if rooted then Reduce(rooted, stack, xs[1..])
      else Reduce(rooted, stack + [".."], xs[1..])
    else Reduce(rooted, stack + [xs[0]], xs[1..])
  }

  /** The elements left after cleaning `p`. */
  function CleanElements(p: string): (r: seq<string>)
    ensures AllElements(r)
  {
    Reduce(HasPrefix(p, "/"), [], Elements(p))
  }

  /** Go `path.Clean`. */
  function Clean(p: string): (r: string)
    ensures r != ""
    ensures HasPrefix(r, "/") <==> HasPrefix(p, "/")
  {
    var st := CleanElements(p);
    var body := JoinElements(st);
    if HasPrefix(p, "/") then "/" + body
    else if body == "" then
      assert "."[..1][0] == '.';
      "."
    else
      JoinElementsStart(st);
      assert st[0][0] in st[0];
      body
  }

  /** Go `path.Join` of two elements: empty parts are ignored, the rest cleaned. */
  function Join(a: string, b: string): (r: string)
    ensures r == "" <==> a == "" && b == ""
  {
    if a == "" && b == "" then ""
    else if a == "" then Clean(b)
    else Clean(a + "/" + b)
  }

  /** Go `path.Dir`: everything up to the last separator, cleaned. */
  function Dir(p: string): (r: string)
    ensures r != ""
  {
    Clean(p[..LastIndex(p, "/") + 1])
  }

  // ---------------------------------------------------------------------
  // Properties of Clean

  /** A stack that `Reduce` leaves alone: no `.`, and `..` only as a leading run (none if rooted). */
  predicate Reduced(rooted: bool, xs: seq<string>)
  {
    && (forall i :: 0 <= i < |xs| ==> xs[i] != ".")
    && (forall i :: 0 <= i < |xs| && xs[i] == ".." ==> !rooted && (i == 0 || xs[i - 1] == ".."))
  }

  lemma {:induction false} ReduceKeepsReduced(rooted: bool, stack: seq<string>, xs: seq<string>)
    requires AllElements(stack) && AllElements(xs)
    requires Reduced(rooted, stack)
    ensures Reduced(rooted, Reduce(rooted, stack, xs))
    decreases |xs|
  {
    if xs == [] {
    } else if xs[0] == "." {
      ReduceKeepsReduced(rooted, stack, xs[1..]);
    } else if xs[0] == ".." {
      if |stack| > 0 && stack[|stack| - 1] != ".." {
        ReduceKeepsReduced(rooted, stack[..|stack| - 1], xs[1..]);
      } else if rooted {
        ReduceKeepsReduced(rooted, stack, xs[1..]);
      } else {
        ReduceKeepsReduced(rooted, stack + [".."], xs[1..]);
      }
    } else {
      ReduceKeepsReduced(rooted, stack + [xs[0]], xs[1..]);
    }
  }

  lemma {:induction false} ReduceOfReduced(rooted: bool, stack: seq<string>, xs: seq<string>)
    requires AllElements(stack) && AllElements(xs)
    requires Reduced(rooted, stack + xs)
    ensures Reduce(rooted, stack, xs) == stack + xs
    decreases |xs|
  {
    if xs != [] {
      var s := stack + xs;
      assert s[|stack|] == xs[0];
      assert xs[0] != ".";
      if xs[0] == ".." {
        assert !rooted;
        assert |stack| == 0 || s[|stack| - 1] == "..";
        assert |stack| == 0 || stack[|stack| - 1] == "..";
      }
      assert (stack + [xs[0]]) + xs[1..] == s;
      ReduceOfReduced(rooted, stack + [xs[0]], xs[1..]);
    }
  }

  lemma JoinElementsStart(xs: seq<string>)
    requires AllElements(xs) && |xs| > 0
    ensures |JoinElements(xs)| > 0 && JoinElements(xs)[0] == xs[0][0]
  {
  }

  lemma ElementsOfElementThenRest(e: string, rest: string)
    requires IsElement(e)
    ensures Elements(e + rest) == [e] + Elements(rest) || (rest != "" && rest[0] != '/')
  {
    var p := e + rest;
    assert p[0] == e[0];
    var k := ElementEnd(p, 0);
    assert p[..|e|] == e;
    if rest == "" || rest[0] == '/' {
      assert k == |e|;
      assert p[..k] == e;
      assert p[k..] == rest;
    }
  }

  lemma {:induction false} ElementsOfJoin(xs: seq<string>)
    requires AllElements(xs)
    ensures Elements(JoinElements(xs)) == xs
    decreases |xs|
  {
    if |xs| == 0 {
    } else if |xs| == 1 {
      ElementsOfElementThenRest(xs[0], "");
      assert xs[0] + "" == xs[0];
    } else {
      var rest := JoinElements(xs[1..]);
      var tail := "/" + rest;
      assert JoinElements(xs) == xs[0] + tail;
      ElementsOfElementThenRest(xs[0], tail);
      assert tail[1..] == rest;
      ElementsOfJoin(xs[1..]);
      assert xs == [xs[0]] + xs[1..];
    }
  }

  /** Cleaning twice is the same as cleaning once. */
  lemma CleanIdempotent(p: string)
    ensures Clean(Clean(p)) == Clean(p)
  {
    var rooted := HasPrefix(p, "/");
    var st := CleanElements(p);
    ReduceKeepsReduced(rooted, [], Elements(p));
    var c := Clean(p);
    ElementsOfJoin(st);
    if rooted {
      assert c == "/" + JoinElements(st);
      assert HasPrefix(c, "/");
      assert c[1..] == JoinElements(st);
      assert Elements(c) == st;
      assert [] + st == st;
      ReduceOfReduced(true, [], st);
    } else if st == [] {
      assert c == ".";
      ElementsOfElementThenRest(".", "");
      assert "." + "" == ".";
    } else {
      JoinElementsStart(st);
      assert c == JoinElements(st);
      assert !HasPrefix(c, "/");
      assert [] + st == st;
      ReduceOfReduced(false, [], st);
    }
  }

  /** A cleaned path never starts with two separators and is never empty. */
  lemma CleanShape(p: string)
    ensures Clean(p) != ""
    ensures !HasPrefix(Clean(p), "//")
  {
    var st := CleanElements(p);
    if st != [] {
      JoinElementsStart(st);
      assert st[0][0] in st[0];
      var c := Clean(p);
      if HasPrefix(p, "/") {
        assert c[1] == st[0][0];
      } else {
        assert c[0] == st[0][0];
      }
    }
  }

  /** `Dir` of a single element, and of ".", is "." — so walking upward clamps there. */
  lemma DirOfElement(e: string)
    ensures '/' !in e ==> Dir(e) == "."
  {
    assert e[..0] == "";
  }

  /** A real element (not "." or "..") is what cleaning leaves of it. */
  predicate IsName(e: string)
  {
    IsElement(e) && e != "." && e != ".."
  }

  lemma CleanOfNameThenRest(e: string, rest: string)
    requires IsName(e) && (rest == "" || rest == "/")
    ensures Clean(e + rest) == e
  {
    var p := e + rest;
    ElementsOfElementThenRest(e, rest);
    assert Elements(rest) == [] by {
      if rest == "/" {
        assert rest[1..] == "";
      }
    }
    assert Elements(p) == [e];
    assert e[0] in e;
    assert p[0] == e[0];
    assert !HasPrefix(p, "/");
    assert Reduce(false, [], [e]) == Reduce(false, [e], []);
    assert CleanElements(p) == [e];
  }

  /** The directory of "a/b" is "a". */
  lemma DirOfTwo(a: string, b: string)
    requires IsName(a) && IsElement(b)
    ensures Dir(a + "/" + b) == a
  {
    var p := a + "/" + b;
    assert OccursAt(p, "/", |a|);
    forall j | |a| < j < |p|
      ensures p[j] != '/'
    {
      assert p[j] == b[j - |a| - 1];
    }
    OccursOneChar(p, '/', |a|);
    assert Contains(p, "/");
    var r := LastIndex(p, "/");
    OccursOneChar(p, '/', r);
    assert r == |a|;
    assert p[..|a| + 1] == a + "/";
    CleanOfNameThenRest(a, "/");
  }

  /** Joining a name onto "." gives the name. */
  lemma JoinDot(e: string)
    requires IsName(e)
    ensures Join(".", e) == e
  {
    var p := "." + "/" + e;
    assert p == "." + ("/" + e);
    ElementsOfElementThenRest(".", "/" + e);
    assert Elements("/" + e) == Elements(e) by {
      assert ("/" + e)[1..] == e;
    }
    ElementsOfElementThenRest(e, "");
    assert e + "" == e;
    assert Elements(e) == [e];
    assert Elements(p) == [".", e];
    assert !HasPrefix(p, "/");
    assert Reduce(false, [], [".", e]) == Reduce(false, [], [e]);
    assert Reduce(false, [], [e]) == Reduce(false, [e], []);
    assert CleanElements(p) == [e];
  }
}
