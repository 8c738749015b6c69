/**
 * The change-only projection of the PDF batch report: the diff of one file
 * pair becomes four parallel lists (old text, new text, old type, new type)
 * with one entry per removed or added line; unchanged lines and intraline
 * hints are skipped.
 */
module Columns {
  import opened PyText
  import opened Ndiff
  import Projector

  /** The type tags `'removed'`, `'unchanged'` and `'added'`. */
  datatype LineType = Removed | Unchanged | Added

  /** One position of the four parallel lists. */
  datatype Entry = Entry(oldText: string, newText: string, oldType: LineType, newType: LineType)

  /**
   * The entry of a changed line; its text is `line[2:].rstrip()`.
   */
  function EntryOf(line: string): (e: Entry)
    requires IsChange(line)
    ensures IsRemoved(line) ==> e.newText == "" && e.oldType == Removed && e.newType == Unchanged
    ensures !IsRemoved(line) ==> e.oldText == "" && e.oldType == Unchanged && e.newType == Added
    ensures var text := e.oldText + e.newText;
      |text| <= |Content(line)| && Content(line)[..|text|] == text
      && AllSpace(Content(line)[|text|..]) && (text == [] || !IsSpace(text[|text| - 1]))
  {
    var text := RStrip(Content(line));
    if IsRemoved(line) then Entry(text, "", Removed, Unchanged)
    else Entry("", text, Unchanged, Added)
  }

  /** The entries of a whole diff: one per change line, in diff order. */
  function Entries(diff: seq<string>): (r: seq<Entry>)
  {
    if |diff| == 0 then []
    else
      var last := diff[|diff| - 1];
      Entries(diff[..|diff| - 1]) + (if IsChange(last) then [EntryOf(last)] else [])
  }

  /**
   * The `k`-th entry comes from the `k`-th change line of the diff, so
   * there are exactly as many entries as change lines and they keep the
   * order of the diff.
   */
  lemma {:induction false} EntriesFollowChanges(diff: seq<string>)
    ensures |Entries(diff)| == |ChangeIndices(diff)|
    ensures forall k :: 0 <= k < |Entries(diff)| ==>
      IsChange(diff[ChangeIndices(diff)[k]]) && Entries(diff)[k] == EntryOf(diff[ChangeIndices(diff)[k]])
  {
    if |diff| > 0 {
      var init := diff[..|diff| - 1];
      EntriesFollowChanges(init);
      var r := ChangeIndices(init);
      forall k | 0 <= k < |r|
        ensures diff[r[k]] == init[r[k]]
      {
        assert r[k] in r;
      }
    }
  }

  /**
   * `compare_files` after the diff is taken: one loop over the diff lines
   * that appends to the four lists for every removed or added line.
   */
  method CompareFiles(diff: seq<string>) returns (oldLines: seq<string>, newLines: seq<string>,
                                                  oldTypes: seq<LineType>, newTypes: seq<LineType>)
    ensures |oldLines| == |newLines| == |oldTypes| == |newTypes| == |ChangeIndices(diff)|
    ensures forall k :: 0 <= k < |oldLines| ==>
      Entry(oldLines[k], newLines[k], oldTypes[k], newTypes[k]) == EntryOf(diff[ChangeIndices(diff)[k]])
  {
    oldLines, newLines, oldTypes, newTypes := [], [], [], [];
    for n := 0 to |diff|
      invariant |oldLines| == |newLines| == |oldTypes| == |newTypes| == |Entries(diff[..n])|
      invariant forall k :: 0 <= k < |oldLines| ==>
        Entry(oldLines[k], newLines[k], oldTypes[k], newTypes[k]) == Entries(diff[..n])[k]
    {
      var line := diff[n];
      EntriesSnoc(diff, n);
      var content := RStrip(Content(line));
      if IsRemoved(line) {
        oldLines := oldLines + [content];
        newLines := newLines + [""];
        oldTypes := oldTypes + [Removed];
        newTypes := newTypes + [Unchanged];
      } else if IsAdded(line) {
        oldLines := oldLines + [""];
        newLines := newLines + [content];
        oldTypes := oldTypes + [Unchanged];
        newTypes := newTypes + [Added];
      }
    }
    assert diff[..|diff|] == diff;
    EntriesFollowChanges(diff);
  }

  /** The entries of one more line of the diff. */
  lemma EntriesSnoc(diff: seq<string>, n: nat)
    requires n < |diff|
    ensures Entries(diff[..n + 1]) == Entries(diff[..n]) + if IsChange(diff[n]) then [EntryOf(diff[n])] else []
  {
    assert diff[..n + 1][..n] == diff[..n];
  }

  /**
   * For a changed line, the entry is the line's column pair (the same
   * mapping the web page uses) with trailing whitespace stripped, and its
   * type tags name the line's origin.
   */
  lemma EntryIsStrippedColumnPair(line: string)
    requires IsChange(line)
    ensures var pair := Projector.ColumnPair(line);
      EntryOf(line).oldText == RStrip(pair.0) && EntryOf(line).newText == RStrip(pair.1)
    ensures (EntryOf(line).oldType == Removed) == (Projector.OriginOf(line) == Projector.Removed)
    ensures (EntryOf(line).newType == Added) == (Projector.OriginOf(line) == Projector.Added)
  {
  }
}
