/**
  The handful of Go `strings` functions the parser uses, on byte strings.
  Case folding is ASCII only.
 */
module Strings {

  /** `t` occurs in `s` starting at position `i`. */
  predicate OccursAt(s: string, t: string, i: int)
  {
    0 <= i && i + |t| <= |s| && s[i..i + |t|] == t
  }

  lemma OccursOneChar(s: string, c: char, i: int)
    ensures OccursAt(s, [c], i) <==> 0 <= i < |s| && s[i] == c
  {
    if 0 <= i < |s| && s[i] == c {
      assert s[i..i + 1] == [c];
    }
  }

  /** The first occurrence of a one-byte pattern is the first position holding it. */
  lemma IndexOfChar(s: string, c: char, i: int)
    requires 0 <= i < |s| && s[i] == c && c !in s[..i]
    ensures Index(s, [c]) == i
  {
    OccursOneChar(s, c, i);
    var r := Index(s, [c]);
    OccursOneChar(s, c, r);
    assert forall j :: 0 <= j < i ==> s[j] == s[..i][j];
  }

  predicate HasPrefix(s: string, p: string)
  {
    |p| <= |s| && s[..|p|] == p
  }

  predicate HasSuffix(s: string, p: string)
  {
    |p| <= |s| && s[|s| - |p|..] == p
  }

  /** `strings.Contains`: some occurrence exists. */
  predicate Contains(s: string, t: string)
  {
    exists i :: 0 <= i <= |s| - |t| && OccursAt(s, t, i)
  }

  /** `s` starts with `p` exactly when it is `p` followed by something. */
  lemma HasPrefixIff(s: string, p: string)
    ensures HasPrefix(s, p) <==> exists t :: s == p + t
  {
    if HasPrefix(s, p) {
      assert s == p + s[|p|..];
    }
  }

  /** `s` ends with `p` exactly when it is something followed by `p`. */
  lemma HasSuffixIff(s: string, p: string)
    ensures HasSuffix(s, p) <==> exists t :: s == t + p
  {
    if HasSuffix(s, p) {
      assert s == s[..|s| - |p|] + p;
    }
    if exists t :: s == t + p {
      var t :| s == t + p;
      assert s[|s| - |p|..] == p;
    }
  }

  /** `t` occurs in `s` exactly when `s` splits around a copy of `t`. */
  lemma ContainsIff(s: string, t: string)
    ensures Contains(s, t) <==> exists a, b :: s == a + t + b
  {
    if Contains(s, t) {
      var i :| 0 <= i <= |s| - |t| && OccursAt(s, t, i);
      assert s == s[..i] + t + s[i + |t|..];
    }
    if exists a, b :: s == a + t + b {
      var a, b :| s == a + t + b;
      assert OccursAt(s, t, |a|);
    }
  }

  /** `strings.TrimPrefix`: drops `p` once if `s` starts with it. */
  function TrimPrefix(s: string, p: string): (r: string)
    ensures HasPrefix(s, p) ==> p + r == s
    ensures !HasPrefix(s, p) ==> r == s
  {
    if HasPrefix(s, p) then s[|p|..] else s
  }

  /** ASCII lower-casing of one byte. */
  function LowerChar(c: char): char
  {
    if 'A' <= c <= 'Z' then (c as int + 32) as char else c
  }

  /** `strings.ToLower` restricted to ASCII: length-preserving, byte by byte. */
  function ToLower(s: string): (r: string)
    ensures |r| == |s|
    ensures forall i :: 0 <= i < |s| ==> r[i] == LowerChar(s[i])
  {
    seq(|s|, i requires 0 <= i < |s| => LowerChar(s[i]))
  }

  /** `strings.Repeat(string(c), n)`. */
  function Repeat(c: char, n: nat): (r: string)
    ensures |r| == n
    ensures forall i :: 0 <= i < n ==> r[i] == c
  {
    seq(n, _ => c)
  }

  /** First occurrence of `t` at or after `from`, or -1. */
  function IndexFrom(s: string, t: string, from: nat): (r: int)
    requires from <= |s| + 1
    ensures r == -1 || (from <= r && OccursAt(s, t, r))
    ensures r == -1 ==> forall j :: from <= j ==> !OccursAt(s, t, j)
    ensures r != -1 ==> forall j :: from <= j < r ==> !OccursAt(s, t, j)
    decreases |s| + 1 - from
  {
    if from + |t| > |s| then -1
    else if s[from..from + |t|] == t then from
    else IndexFrom(s, t, from + 1)
  }

  /** `strings.Index`: the first occurrence of `t` in `s`, or -1. */
  function Index(s: string, t: string): (r: int)
    ensures r == -1 <==> !Contains(s, t)
    ensures r != -1 ==> OccursAt(s, t, r) && forall j :: 0 <= j < r ==> !OccursAt(s, t, j)
  {
    IndexFrom(s, t, 0)
  }

  /** Last occurrence of `t` starting at or before `upto`, or -1. */
  function LastIndexUpTo(s: string, t: string, upto: int): (r: int)
    requires upto <= |s|
    ensures r == -1 || (r <= upto && OccursAt(s, t, r))
    ensures r == -1 ==> forall j :: j <= upto ==> !OccursAt(s, t, j)
    ensures r != -1 ==> forall j :: r < j <= upto ==> !OccursAt(s, t, j)
    decreases upto + 1
  {
    if upto < 0 then -1
    else if upto + |t| <= |s| && s[upto..upto + |t|] == t then upto
    else LastIndexUpTo(s, t, upto - 1)
  }

  /** `strings.LastIndex`: the last occurrence of `t` in `s`, or -1. */
  function LastIndex(s: string, t: string): (r: int)
    ensures r == -1 <==> !Contains(s, t)
    ensures r != -1 ==> OccursAt(s, t, r) && forall j :: r < j ==> !OccursAt(s, t, j)
  {
    LastIndexUpTo(s, t, |s|)
  }

  /** `strings.ReplaceAll(s, string(c), rep)` for a one-byte pattern. */
  function ReplaceChar(s: string, c: char, rep: string): (r: string)
    ensures c !in rep ==> c !in r
    ensures c !in s ==> r == s
  {
    if s == [] then []
    else (if s[0] == c then rep else [s[0]]) + ReplaceChar(s[1..], c, rep)
  }

  /** Replacement introduces no byte that neither the text nor the replacement holds. */
  lemma {:induction false} ReplaceCharKeepsAbsent(s: string, c: char, rep: string, d: char)
    requires d !in s && d !in rep
    ensures d !in ReplaceChar(s, c, rep)
    decreases |s|
  {
    if s != [] {
      assert s[0] != d;
      assert forall x :: x in s[1..] ==> x in s;
      ReplaceCharKeepsAbsent(s[1..], c, rep, d);
    }
  }

  /** Replacing a one-byte pattern distributes over concatenation. */
  lemma {:induction false} ReplaceCharAppend(a: string, b: string, c: char, rep: string)
    ensures ReplaceChar(a + b, c, rep) == ReplaceChar(a, c, rep) + ReplaceChar(b, c, rep)
    decreases |a|
  {
    if a == [] {
      assert a + b == b;
    } else {
      assert (a + b)[0] == a[0];
      assert (a + b)[1..] == a[1..] + b;
      ReplaceCharAppend(a[1..], b, c, rep);
    }
  }
}
