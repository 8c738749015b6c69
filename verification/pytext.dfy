/**
 * The few Python `str` operations the report pipeline relies on, with the
 * semantics CPython gives them: `startswith`, `endswith`, slicing with
 * clamped bounds, `rstrip()`/`strip()` without arguments, `splitlines()`,
 * `sep.join(...)` and `lower()`.
 */
module PyText {

  /** `s.startswith(p)` */
  predicate StartsWith(s: string, p: string) {
    |p| <= |s| && s[..|p|] == p
  }

  /** `s.endswith(p)` */
  predicate EndsWith(s: string, p: string) {
    |p| <= |s| && s[|s| - |p|..] == p
  }

  /** `s[lo:]` for a non-negative `lo`: empty once `lo` passes the end. */
  function Drop<T>(s: seq<T>, lo: nat): (r: seq<T>)
    ensures |r| == if lo <= |s| then |s| - lo else 0
    ensures forall k :: 0 <= k < |r| ==> r[k] == s[lo + k]
  {
    if lo <= |s| then s[lo..] else []
  }

  /** `s[lo:hi]` for `0 <= lo <= hi`: both bounds are clamped to the length. */
  function Slice<T>(s: seq<T>, lo: nat, hi: nat): (r: seq<T>)
    requires lo <= hi
    ensures |r| == (if hi <= |s| then hi else |s|) - (if lo <= |s| then lo else |s|)
    ensures forall k :: 0 <= k < |r| ==> r[k] == s[lo + k]
  {
    var h := if hi <= |s| then hi else |s|;
    var l := if lo <= |s| then lo else |s|;
    s[l..h]
  }

  /** `s[:n]`: the first `min(n, len(s))` characters. */
  function Take<T>(s: seq<T>, n: nat): (r: seq<T>)
    ensures |r| <= n && |r| <= |s|
    ensures |r| == n || r == s
    ensures r == s[..|r|]
  {
    if n <= |s| then s[..n] else s
  }

  /** `c.isspace()`: the characters CPython counts as whitespace. */
  predicate IsSpace(c: char) {
    c == ' ' || c == '\t' || c == '\n' || c == '\r' || c == '\U{000B}' || c == '\U{000C}'
    || ('\U{001C}' <= c <= '\U{001F}')
    || c == '\U{0085}' || c == '\U{00A0}' || c == '\U{1680}'
    || ('\U{2000}' <= c <= '\U{200A}')
    || c == '\U{2028}' || c == '\U{2029}' || c == '\U{202F}' || c == '\U{205F}' || c == '\U{3000}'
  }

  predicate AllSpace(s: string) {
    forall k :: 0 <= k < |s| ==> IsSpace(s[k])
  }

  /** `s.rstrip()`: drops every trailing whitespace character and nothing else. */
  function RStrip(s: string): (r: string)
    ensures |r| <= |s| && r == s[..|r|]
    ensures AllSpace(s[|r|..])
    ensures r == [] || !IsSpace(r[|r| - 1])
  {
    if |s| == 0 || !IsSpace(s[|s| - 1]) then s
    else
      var r := RStrip(s[..|s| - 1]);
      assert s[|r|..] == s[..|s| - 1][|r|..] + [s[|s| - 1]];
      r
  }

  /** `s.lstrip()`: drops every leading whitespace character and nothing else. */
  function LStrip(s: string): (r: string)
    ensures |r| <= |s| && r == s[|s| - |r|..]
    ensures AllSpace(s[..|s| - |r|])
    ensures r == [] || !IsSpace(r[0])
  {
    if |s| == 0 || !IsSpace(s[0]) then s
    else
      var r := LStrip(s[1..]);
      assert s[|s| - |r|..] == s[1..][|s| - 1 - |r|..];
      assert forall k :: 1 <= k < |s| - |r| ==> s[k] == s[1..][..|s| - 1 - |r|][k - 1];
      r
  }

  /** `s.strip()`; it is empty exactly when `s` is whitespace only. */
  function Strip(s: string): (r: string)
    ensures r == [] <==> AllSpace(s)
  {
    var l := LStrip(s);
    LStripKeepsBlankness(s);
    RStripEmpty(l);
    RStrip(l)
  }

  /** `s.lstrip()` is whitespace only exactly when `s` is. */
  lemma LStripKeepsBlankness(s: string)
    ensures AllSpace(LStrip(s)) <==> AllSpace(s)
  {
    var l := LStrip(s);
    assert s == s[..|s| - |l|] + l;
  }

  /** `s.rstrip()` is empty exactly when `s` is whitespace only. */
  lemma RStripEmpty(s: string)
    ensures RStrip(s) == [] <==> AllSpace(s)
  {
    var r := RStrip(s);
    if r == [] {
      assert s[|r|..] == s;
    } else {
      assert s[|r| - 1] == r[|r| - 1];
    }
  }

  /** The characters at which `str.splitlines()` ends a line. */
  predicate IsLineBreak(c: char) {
    c == '\n' || c == '\r' || c == '\U{000B}' || c == '\U{000C}'
    || ('\U{001C}' <= c <= '\U{001E}')
    || c == '\U{0085}' || c == '\U{2028}' || c == '\U{2029}'
  }

  predicate NoBreak(s: string) {
    forall k :: 0 <= k < |s| ==> !IsLineBreak(s[k])
  }

  /** Position of the first line break of `s`, or `|s|` when there is none. */
  function BreakAt(s: string): (i: nat)
    ensures i <= |s| && NoBreak(s[..i])
    ensures i < |s| ==> IsLineBreak(s[i])
  {
    if |s| == 0 || IsLineBreak(s[0]) then 0
    else
      var i := 1 + BreakAt(s[1..]);
      assert s[..i] == [s[0]] + s[1..][..i - 1];
      i
  }

  /** A text that does not open with a line break has a first line that opens with its first character. */
  lemma FirstLineStart(s: string)
    requires |s| > 0 && !IsLineBreak(s[0])
    ensures SplitLines(s) != [] && |SplitLines(s)[0]| > 0 && SplitLines(s)[0][0] == s[0]
  {
    assert BreakAt(s) >= 1;
  }

  /**
   * `s.splitlines()`: the text between line breaks, where "\r\n" counts as
   * one break and a final break does not open an empty last line.
   */
  function SplitLines(s: string): (lines: seq<string>)
    ensures forall l :: l in lines ==> NoBreak(l)
    decreases |s|
  {
    if |s| == 0 then []
    else
      var i := BreakAt(s);
      if i == |s| then [s]
      else
        var width := if s[i] == '\r' && i + 1 < |s| && s[i + 1] == '\n' then 2 else 1;
        [s[..i]] + SplitLines(s[i + width..])
  }

  /** `sep.join(parts)` */
  function Join(sep: string, parts: seq<string>): (r: string)
    ensures parts == [] ==> r == []
    ensures |parts| == 1 ==> r == parts[0]
    ensures parts != [] ==> |parts[0]| <= |r| && r[..|parts[0]|] == parts[0]
  {
    if |parts| == 0 then []
    else if |parts| == 1 then parts[0]
    else parts[0] + sep + Join(sep, parts[1..])
  }

  /** `c.lower()` for the ASCII letters; every other character is kept. */
  function LowerChar(c: char): (d: char)
    ensures 'A' <= c <= 'Z' ==> 'a' <= d <= 'z' && d as int == c as int + 32
    ensures !('A' <= c <= 'Z') ==> d == c
  {
    if 'A' <= c <= 'Z' then (c as int - 'A' as int + 'a' as int) as char else c
  }

  /** `s.lower()`, character by character. */
  function Lower(s: string): (r: string)
    ensures |r| == |s|
    ensures forall k :: 0 <= k < |s| ==> r[k] == LowerChar(s[k])
  {
    seq(|s|, k requires 0 <= k < |s| => LowerChar(s[k]))
  }

  // ---------------------------------------------------------------------
  // Facts about splitlines and join used by the summary pipeline.

  /** A break-free line followed by "\n" is split off as exactly that line. */
  lemma SplitLinesCons(a: string, t: string)
    requires NoBreak(a)
    ensures SplitLines(a + "\n" + t) == [a] + SplitLines(t)
  {
    var s := a + "\n" + t;
    assert s == a + ("\n" + t);
    BreakAtPrefix(a, "\n" + t);
    assert BreakAt("\n" + t) == 0;
    assert BreakAt(s) == |a| && s[|a|] == '\n';
    assert s[..|a|] == a;
    assert s[|a| + 1..] == t;
  }

  /** The first break of `a + t` is the first break of `t` when `a` has none. */
  lemma {:induction false} BreakAtPrefix(a: string, t: string)
    requires NoBreak(a)
    ensures BreakAt(a + t) == |a| + BreakAt(t)
  {
    if |a| > 0 {
      assert (a + t)[1..] == a[1..] + t;
      BreakAtPrefix(a[1..], t);
    } else {
      assert a + t == t;
    }
  }

  /** A non-empty break-free string is one line. */
  lemma SplitLinesSingle(a: string)
    requires NoBreak(a) && a != []
    ensures SplitLines(a) == [a]
  {
    BreakAtPrefix(a, []);
    assert a + [] == a;
  }

  /**
   * Joining break-free, non-empty lines with "\n" and splitting the result
   * again gives the lines back.
   */
  lemma {:induction false} SplitJoin(parts: seq<string>)
    requires forall k :: 0 <= k < |parts| ==> NoBreak(parts[k]) && parts[k] != []
    ensures SplitLines(Join("\n", parts)) == parts
  {
    if |parts| == 1 {
      SplitLinesSingle(parts[0]);
    } else if |parts| > 1 {
      SplitJoin(parts[1..]);
      SplitLinesCons(parts[0], Join("\n", parts[1..]));
      assert parts == [parts[0]] + parts[1..];
    }
  }

  /**
   * Splitting `Join("\n", parts) + "\n" + t`, for at least one part, yields
   * the parts followed by the lines of `t`.
   */
  lemma {:induction false} SplitJoinThen(parts: seq<string>, t: string)
    requires parts != []
    requires forall k :: 0 <= k < |parts| ==> NoBreak(parts[k])
    ensures SplitLines(Join("\n", parts) + "\n" + t) == parts + SplitLines(t)
  {
    if |parts| == 1 {
      SplitLinesCons(parts[0], t);
      assert parts == [parts[0]];
    } else {
      assert forall k :: 0 <= k < |parts| - 1 ==> parts[1..][k] == parts[k + 1];
      SplitJoinThen(parts[1..], t);
      SplitJoinThenStep(parts, t);
    }
  }

  /** The inductive step of `SplitJoinThen`: one more part in front. */
  lemma SplitJoinThenStep(parts: seq<string>, t: string)
    requires |parts| > 1 && NoBreak(parts[0])
    requires SplitLines(Join("\n", parts[1..]) + "\n" + t) == parts[1..] + SplitLines(t)
    ensures SplitLines(Join("\n", parts) + "\n" + t) == parts + SplitLines(t)
  {
    var tail := Join("\n", parts[1..]) + "\n" + t;
    JoinThenCons(parts, t);
    SplitLinesCons(parts[0], tail);
    ConsChain([parts[0]], parts[1..], SplitLines(parts[0] + "\n" + tail), SplitLines(tail), SplitLines(t));
    assert parts == [parts[0]] + parts[1..];
  }

  /** The first of several joined parts, then the rest. */
  lemma JoinThenCons(parts: seq<string>, t: string)
    requires |parts| > 1
    ensures Join("\n", parts) + "\n" + t == parts[0] + "\n" + (Join("\n", parts[1..]) + "\n" + t)
  {
    var rest := Join("\n", parts[1..]);
    assert Join("\n", parts) == parts[0] + "\n" + rest;
    Regroup(parts[0] + "\n", rest, "\n", t);
  }

  /** Every line of a whitespace-only text is whitespace only. */
  lemma {:induction false} SplitLinesOfSpace(s: string)
    requires AllSpace(s)
    ensures forall l :: l in SplitLines(s) ==> AllSpace(l)
    decreases |s|
  {
    if |s| > 0 {
      var i := BreakAt(s);
      if i < |s| {
        var width := if s[i] == '\r' && i + 1 < |s| && s[i + 1] == '\n' then 2 else 1;
        SplitLinesOfSpace(s[i + width..]);
      }
    }
  }

  // ---------------------------------------------------------------------
  // Proof helpers: generic sequence facts, stated once as lemmas so that
  // the proofs above and in the pagination module stay within their budget.

  /** Regrouping a four-part concatenation. */
  lemma Regroup<T>(a: seq<T>, b: seq<T>, c: seq<T>, d: seq<T>)
    ensures ((a + b) + c) + d == a + ((b + c) + d)
  {
  }

  /** Two prefix decompositions compose. */
  lemma ConsChain<T>(a: seq<T>, b: seq<T>, x: seq<T>, y: seq<T>, z: seq<T>)
    requires x == a + y && y == b + z
    ensures x == (a + b) + z
  {
  }

  lemma SeqAssoc<T>(a: seq<T>, b: seq<T>, c: seq<T>)
    ensures a + (b + c) == (a + b) + c
  {
  }

  /** Element `k` of a list is element `k - 1` of its tail. */
  lemma IndexShift<T>(xs: seq<T>, tail: seq<T>, k: nat, v: T)
    requires 0 < k < |xs| && xs[1..] == tail && tail[k - 1] == v
    ensures xs[k] == v
  {
  }
}
