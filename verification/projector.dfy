/**
 * The dual-column projection of the web page: each retained diff line
 * becomes one row of a two-column table, in the order of the retained
 * indices, after a fixed header row. The same loop is written twice in the
 * page, once for the on-screen table (cells are `<font>`-coloured HTML and
 * changes carry a cross or a check mark) and once for the PDF report (no
 * marks, and the empty cell of a change is a bare paragraph).
 */
module Projector {
  import opened PyText
  import opened Ndiff

  datatype Colour = Red | Green | Gray | Black

  /** A cell: text inside `<font color="...">`, or bare text. */
  datatype Cell = Font(colour: Colour, text: string) | Plain(text: string)

  datatype Row = Row(oldCell: Cell, newCell: Cell)

  /** `["OLD VERSION", "NEW VERSION"]` */
  const Header: Row := Row(Plain("OLD VERSION"), Plain("NEW VERSION"))

  /** The marks put in front of removed and added lines on screen. */
  const RemovedMark: string := "\U{274C} "
  const AddedMark: string := "\U{2705} "

  /** Which of the two tables is being built. */
  datatype Target = Screen | Pdf

  /**
   * The row for one retained diff line. Every line that is neither removed
   * nor added, an intraline hint "? " included, is shown gray in both
   * columns.
   */
  function RowOf(target: Target, line: string): (r: Row)
    ensures OriginOfRow(r) == OriginOf(line)
    ensures target == Pdf ==> (r.oldCell.text, r.newCell.text) == ColumnPair(line)
  {
    var text := Content(line);
    if IsRemoved(line) then
      match target
      case Screen => Row(Font(Red, RemovedMark + text), Font(Black, ""))
      case Pdf => Row(Font(Red, text), Plain(""))
    else if IsAdded(line) then
      match target
      case Screen => Row(Font(Black, ""), Font(Green, AddedMark + text))
      case Pdf => Row(Plain(""), Font(Green, text))
    else
      Row(Font(Gray, text), Font(Gray, text))
  }

  /**
   * Builds the table: the header, then one row per retained index, in the
   * order of `included`.
   */
  method BuildTable(diff: seq<string>, included: seq<nat>, target: Target) returns (table: seq<Row>)
    requires forall k :: 0 <= k < |included| ==> included[k] < |diff|
    ensures |table| == |included| + 1 && table[0] == Header
    ensures forall k :: 0 <= k < |included| ==> table[k + 1] == RowOf(target, diff[included[k]])
  {
    table := [Header];
    for n := 0 to |included|
      invariant |table| == n + 1 && table[0] == Header
      invariant forall k :: 0 <= k < n ==> table[k + 1] == RowOf(target, diff[included[k]])
    {
      var line := diff[included[n]];
      table := table + [RowOf(target, line)];
    }
  }

  // ---------------------------------------------------------------------
  // The reference projection: what a row means, independent of rendering.

  /** Where a diff line comes from. */
  datatype Origin = Kept | Removed | Added

  function OriginOf(line: string): Origin {
    if IsRemoved(line) then Removed else if IsAdded(line) then Added else Kept
  }

  /**
   * The column pair of a line: a removed line only in the old column, an
   * added line only in the new column, anything else in both.
   */
  function ColumnPair(line: string): (pair: (string, string)) {
    match OriginOf(line)
    case Removed => (Content(line), "")
    case Added => ("", Content(line))
    case Kept => (Content(line), Content(line))
  }

  /** The origin a reader recovers from a row's colours. */
  function OriginOfRow(row: Row): Origin {
    if row.oldCell.Font? && row.oldCell.colour == Red then Removed
    else if row.newCell.Font? && row.newCell.colour == Green then Added
    else Kept
  }

  /** A cell's text with the on-screen mark taken off. */
  function Unmarked(text: string): string {
    if StartsWith(text, RemovedMark) || StartsWith(text, AddedMark) then text[2..] else text
  }

  /**
   * The on-screen row of a removed line is the red marked text beside a
   * black empty cell, and the mirror for an added line. With the marks taken
   * off, a screen row is the line's column pair; for a line that is neither
   * removed nor added this needs its text not to start with a mark, which
   * would be taken off as well.
   */
  lemma ScreenRowIsMarkedColumnPair(line: string)
    ensures IsRemoved(line) ==> RowOf(Screen, line) == Row(Font(Red, RemovedMark + Content(line)), Font(Black, ""))
    ensures IsAdded(line) ==> RowOf(Screen, line) == Row(Font(Black, ""), Font(Green, AddedMark + Content(line)))
    ensures OriginOf(line) != Kept || (!StartsWith(Content(line), RemovedMark) && !StartsWith(Content(line), AddedMark)) ==>
      var row := RowOf(Screen, line); (Unmarked(row.oldCell.text), Unmarked(row.newCell.text)) == ColumnPair(line)
  {
    var text := Content(line);
    assert (RemovedMark + text)[2..] == text;
    assert (AddedMark + text)[2..] == text;
    assert StartsWith(RemovedMark + text, RemovedMark);
    assert StartsWith(AddedMark + text, AddedMark);
  }

  /**
   * Both tables colour a row so that its origin can be read back from it:
   * the old cell is red exactly for a removed line, the new cell is green
   * exactly for an added line, and any other line is gray in both columns.
   */
  lemma RowColoursGiveOrigin(target: Target, line: string)
    ensures OriginOfRow(RowOf(target, line)) == OriginOf(line)
    ensures (RowOf(target, line).oldCell.Font? && RowOf(target, line).oldCell.colour == Red) <==> IsRemoved(line)
    ensures (RowOf(target, line).newCell.Font? && RowOf(target, line).newCell.colour == Green) <==> IsAdded(line)
    ensures OriginOf(line) == Kept ==> RowOf(target, line) == Row(Font(Gray, Content(line)), Font(Gray, Content(line)))
  {
  }

  /** An intraline hint "? " inside a window is shown as a gray row in both columns. */
  lemma HintRowIsGray(target: Target, line: string)
    requires StartsWith(line, "? ")
    ensures RowOf(target, line) == Row(Font(Gray, line[2..]), Font(Gray, line[2..]))
  {
    assert line[..2] == "? ";
  }
}
