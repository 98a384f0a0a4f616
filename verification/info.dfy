/**
  The column fitting of the `info` command: `truncate` pads a value to the
  width of a table cell or cuts it with an ellipsis.
 */
module Info {
  import opened Strings

  /** Width of the file, title and author cells; `Truncate` pads or cuts to exactly this. */
  const FieldWidth: int := 49
  /** Width of a chapter-title cell; `Truncate` pads or cuts to exactly this. */
  const ChapterWidth: int := 54

  /**
    `truncate`: a value that fits is padded with spaces to exactly `n`
    bytes; a longer one keeps its first `n - 3` bytes followed by `...`.
    The Go slice panics when `n < 3` and the value is too long, so that is
    excluded.
   */
  function Truncate(s: string, n: int): (r: string)
    requires |s| <= n || n >= 3
    ensures |r| == n
    ensures |s| <= n ==> HasPrefix(r, s) && forall i :: |s| <= i < n ==> r[i] == ' '
    ensures |s| > n ==> HasPrefix(r, s[..n - 3]) && HasSuffix(r, "...")
  {
    if |s| <= n then
      var r := s + Repeat(' ', n - |s|);
      assert r[..|s|] == s;
      r
    else
      var r := s[..n - 3] + "...";
      assert r[..n - 3] == s[..n - 3];
      assert r[n - 3..] == "...";
      r
  }

  /** Fitting an already fitted cell changes nothing. */
  lemma TruncateIdempotent(s: string, n: int)
    requires |s| <= n || n >= 3
    ensures Truncate(Truncate(s, n), n) == Truncate(s, n)
  {
    var r := Truncate(s, n);
    assert r + Repeat(' ', 0) == r;
  }

  /** Two over-long values that agree up to the cut become the same cell. */
  lemma TruncateInformation(s: string, t: string, n: int)
    requires n >= 3 && |s| > n && |t| > n && s[..n - 3] == t[..n - 3]
    ensures Truncate(s, n) == Truncate(t, n)
  {
  }
}
