/**
 * The line list that `difflib.ndiff` hands to the report pipeline. The
 * diff algorithm itself is not modelled: a diff is any sequence of strings,
 * and each line is read by its two-character prefix, "  " (in both files),
 * "- " (only in the old file), "+ " (only in the new file) or "? " (an
 * intraline hint).
 */
module Ndiff {
  import opened PyText

  /** `line.startswith('- ')`: the line exists only in the old file. */
  predicate IsRemoved(line: string) {
    StartsWith(line, "- ")
  }

  /** `line.startswith('+ ')`: the line exists only in the new file. */
  predicate IsAdded(line: string) {
    StartsWith(line, "+ ")
  }

  /** A removed or an added line. */
  predicate IsChange(line: string) {
    IsRemoved(line) || IsAdded(line)
  }

  /** `line[2:]`: the text after the two-character code. */
  function Content(line: string): (c: string)
    ensures |line| >= 2 ==> line == line[..2] + c
    ensures |line| < 2 ==> c == []
  {
    Drop(line, 2)
  }

  /** A line as `ndiff` emits it: one of the four codes, then the text. */
  predicate WellFormed(line: string) {
    |line| >= 2 && line[..2] in {"  ", "- ", "+ ", "? "}
  }

  predicate WellFormedDiff(diff: seq<string>) {
    forall i :: 0 <= i < |diff| ==> WellFormed(diff[i])
  }

  /** In a well-formed diff, a line opens with '+' or '-' only when it is a change. */
  lemma SignedIsChange(line: string)
    requires WellFormed(line)
    ensures (StartsWith(line, "+") || StartsWith(line, "-")) <==> IsChange(line)
  {
    assert line[..1] == line[..2][..1];
  }

  predicate StrictlyIncreasing(s: seq<nat>) {
    forall i, j :: 0 <= i < j < |s| ==> s[i] < s[j]
  }

  /**
   * `[i for i, line in enumerate(diff) if line.startswith('- ') or
   * line.startswith('+ ')]`: the positions of the changes, in order.
   */
  function ChangeIndices(diff: seq<string>): (r: seq<nat>)
    ensures StrictlyIncreasing(r)
    ensures forall i :: i in r <==> 0 <= i < |diff| && IsChange(diff[i])
    ensures forall k :: 0 <= k < |r| ==> r[k] < |diff| && IsChange(diff[r[k]])
  {
    if |diff| == 0 then []
    else
      var last := |diff| - 1;
      var r := ChangeIndices(diff[..last]);
      assert forall i :: 0 <= i < last ==> diff[..last][i] == diff[i];
      if IsChange(diff[last]) then
        assert forall i :: 0 <= i < |r| ==> r[i] in r && r[i] < last;
        r + [last]
      else r
  }

  /** Two ascending index lists with the same members are the same list. */
  lemma {:induction false} StrictlyIncreasingUnique(a: seq<nat>, b: seq<nat>)
    requires StrictlyIncreasing(a) && StrictlyIncreasing(b)
    requires forall x :: x in a <==> x in b
    ensures a == b
  {
    assert a != [] ==> a[0] in b;
    assert b != [] ==> b[0] in a;
    if a != [] && b != [] {
      assert a[0] == b[0];
      forall x
        ensures x in a[1..] <==> x in b[1..]
      {
        assert x in a[1..] <==> x in a && x != a[0];
        assert x in b[1..] <==> x in b && x != b[0];
      }
      StrictlyIncreasingUnique(a[1..], b[1..]);
      assert a == [a[0]] + a[1..] && b == [b[0]] + b[1..];
    }
  }
}
