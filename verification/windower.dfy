/**
 * The context windower of the live comparison page: every removed or added
 * line of the diff, together with up to `context` lines on either side of
 * it, is kept for display; the rest of the diff is hidden.
 */
module Windower {
  import opened Ndiff

  /** The lines shown around each change by default. */
  const DefaultContext: nat := 2

  /** `set(range(lo, hi))` */
  function Range(lo: int, hi: int): (r: set<nat>)
    ensures forall k: nat :: k in r <==> lo <= k < hi
    decreases hi - lo
  {
    if hi <= lo || hi <= 0 then {} else Range(lo, hi - 1) + {hi - 1}
  }

  /** Line `k` lies within `context` lines of some change. */
  predicate NearChange(diff: seq<string>, context: nat, k: nat) {
    exists j :: 0 <= j < |diff| && IsChange(diff[j]) && j - context <= k <= j + context
  }

  /**
   * Collects the windows `[max(i - context, 0), min(i + context + 1, len))`
   * of all change positions `i` in a set, then lists the set in ascending
   * order.
   */
  method IncludedLines(diff: seq<string>, context: nat) returns (included: seq<nat>)
    ensures StrictlyIncreasing(included)
    ensures forall i :: 0 <= i < |diff| && IsChange(diff[i]) ==> i in included
    ensures forall k: nat :: k in included <==> k < |diff| && NearChange(diff, context, k)
    ensures (forall i :: 0 <= i < |diff| ==> !IsChange(diff[i])) ==> included == []
    ensures context == 0 ==> included == ChangeIndices(diff)
  {
    var changeIndices := ChangeIndices(diff);
    var lines: set<nat> := {};
    for j := 0 to |changeIndices|
      invariant forall k: nat :: k in lines <==>
        k < |diff| && exists t :: 0 <= t < j && changeIndices[t] - context <= k <= changeIndices[t] + context
    {
      var idx := changeIndices[j];
      var start := if idx - context > 0 then idx - context else 0;
      var end := if idx + context + 1 < |diff| then idx + context + 1 else |diff|;
      lines := lines + Range(start, end);
    }
    WindowsAreNearChanges(diff, context, changeIndices, lines);
    included := Sorted(lines, |diff|);
    assert included != [] ==> included[0] in included;
    if context == 0 {
      ChangesAloneWithoutContext(diff, included);
    }
  }

  /**
   * `sorted(lines)` for a set of line numbers below `n`: a scan of
   * `0 .. n - 1` lists the members in ascending order.
   */
  method Sorted(lines: set<nat>, n: nat) returns (sorted: seq<nat>)
    requires forall m :: m in lines ==> m < n
    ensures StrictlyIncreasing(sorted)
    ensures forall m :: m in sorted <==> m in lines
  {
    sorted := [];
    for k := 0 to n
      invariant StrictlyIncreasing(sorted)
      invariant forall i :: 0 <= i < |sorted| ==> sorted[i] < k
      invariant forall m: nat :: m in sorted <==> m < k && m in lines
    {
      if k in lines {
        sorted := sorted + [k];
      }
    }
  }

  /** With no context, the lines kept are exactly the changes, in order. */
  lemma ChangesAloneWithoutContext(diff: seq<string>, included: seq<nat>)
    requires StrictlyIncreasing(included)
    requires forall k: nat :: k in included <==> k < |diff| && NearChange(diff, 0, k)
    ensures included == ChangeIndices(diff)
  {
    var changeIndices := ChangeIndices(diff);
    forall m: nat ensures m in included <==> m in changeIndices {
      if m in included {
        var j :| 0 <= j < |diff| && IsChange(diff[j]) && j <= m <= j;
      }
    }
    StrictlyIncreasingUnique(included, changeIndices);
  }

  /**
   * The union of the windows around the listed change positions is the set
   * of lines near a change.
   */
  lemma WindowsAreNearChanges(diff: seq<string>, context: nat, changeIndices: seq<nat>, lines: set<nat>)
    requires changeIndices == ChangeIndices(diff)
    requires forall k: nat :: k in lines <==>
      k < |diff| && exists t :: 0 <= t < |changeIndices| && changeIndices[t] - context <= k <= changeIndices[t] + context
    ensures forall k: nat :: k in lines <==> k < |diff| && NearChange(diff, context, k)
  {
    forall k: nat | k in lines
      ensures NearChange(diff, context, k)
    {
      var t :| 0 <= t < |changeIndices| && changeIndices[t] - context <= k <= changeIndices[t] + context;
      assert changeIndices[t] in changeIndices;
    }
    forall k: nat | k < |diff| && NearChange(diff, context, k)
      ensures k in lines
    {
      var j :| 0 <= j < |diff| && IsChange(diff[j]) && j - context <= k <= j + context;
      assert j in changeIndices;
      var t :| 0 <= t < |changeIndices| && changeIndices[t] == j;
    }
  }

  /**
   * The page's own `context = 2` on a seven-line diff whose only change is
   * line 4: lines 2 to 6 are near it and lines 0 and 1 are not.
   */
  lemma DefaultWindowExample()
    ensures var diff := ["  a", "  b", "  c", "  d", "- e", "  f", "  g"];
      forall k: nat :: k < |diff| ==> (NearChange(diff, DefaultContext, k) <==> 2 <= k)
  {
    var diff := ["  a", "  b", "  c", "  d", "- e", "  f", "  g"];
    assert IsChange(diff[4]);
    forall j | 0 <= j < |diff| && j != 4
      ensures !IsChange(diff[j])
    {
      assert diff[j][..2] == "  ";
    }
  }
}
