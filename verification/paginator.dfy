/**
 * `build_table_pages`: the four parallel lists of the batch report are cut
 * into chunks of `max_rows` positions; each chunk becomes one table with its
 * own header row and its own text-colour directives (red for a removed old
 * cell, green for an added new cell). A table is modelled as its rows plus
 * those directives; the fixed header styling shared by every table is not
 * modelled.
 */
module Paginator {
  import opened PyText
  import opened Columns

  /** `['OLD VERSION', 'NEW VERSION']` */
  const HeaderRow: (string, string) := ("OLD VERSION", "NEW VERSION")

  /** The rows per table the report asks for. */
  const DefaultMaxRows: nat := 40

  datatype Ink = Red | Green

  /** `('TEXTCOLOR', (col, row), (col, row), ink)`: the colour of one cell's text. */
  datatype TextColour = TextColour(col: nat, row: nat, ink: Ink)

  /** One table: its rows, the header first, and its per-cell colours. */
  datatype Page = Page(rows: seq<(string, string)>, colours: seq<TextColour>)

  function Min(a: nat, b: nat): nat {
    if a <= b then a else b
  }

  /** `list(zip(a, b))`: pairs up to the shorter list. */
  function Zip<A, B>(a: seq<A>, b: seq<B>): (r: seq<(A, B)>)
    ensures |r| == Min(|a|, |b|)
    ensures forall k :: 0 <= k < |r| ==> r[k] == (a[k], b[k])
  {
    seq(Min(|a|, |b|), k requires 0 <= k < Min(|a|, |b|) => (a[k], b[k]))
  }

  /** `ceil(n / m)` */
  function CeilDiv(n: nat, m: nat): nat
    requires m >= 1
  {
    (n + m - 1) / m
  }

  /** The directives for the chunk row at table row `row`. */
  function DirectivesAt(oldType: LineType, newType: LineType, row: nat): seq<TextColour> {
    (if oldType == Removed then [TextColour(0, row, Red)] else [])
    + (if newType == Added then [TextColour(1, row, Green)] else [])
  }

  /** The directives for the first `n` type pairs of a chunk. */
  function ColoursUpTo(oldTypes: seq<LineType>, newTypes: seq<LineType>, n: nat): seq<TextColour>
    requires n <= |oldTypes| && n <= |newTypes|
  {
    if n == 0 then []
    else ColoursUpTo(oldTypes, newTypes, n - 1) + DirectivesAt(oldTypes[n - 1], newTypes[n - 1], n)
  }

  /**
   * Chunk position `k` sits at table row `k + 1`, below the header: its old
   * cell is red exactly when its old type is removed, its new cell green
   * exactly when its new type is added, and nothing else is coloured.
   */
  lemma {:induction false} ColoursMeaning(oldTypes: seq<LineType>, newTypes: seq<LineType>, n: nat)
    requires n <= |oldTypes| && n <= |newTypes|
    ensures forall d :: d in ColoursUpTo(oldTypes, newTypes, n) ==>
      && 1 <= d.row <= n
      && ((d.ink == Red && d.col == 0) || (d.ink == Green && d.col == 1))
    ensures forall row :: 1 <= row <= n ==>
      (TextColour(0, row, Red) in ColoursUpTo(oldTypes, newTypes, n) <==> oldTypes[row - 1] == Removed)
    ensures forall row :: 1 <= row <= n ==>
      (TextColour(1, row, Green) in ColoursUpTo(oldTypes, newTypes, n) <==> newTypes[row - 1] == Added)
  {
    if n > 0 {
      ColoursMeaning(oldTypes, newTypes, n - 1);
      var before := ColoursUpTo(oldTypes, newTypes, n - 1);
      var added := DirectivesAt(oldTypes[n - 1], newTypes[n - 1], n);
      var r := ColoursUpTo(oldTypes, newTypes, n);
      DirectivesMeaning(oldTypes[n - 1], newTypes[n - 1], n);
      assert r == before + added;
      forall d | d in r
        ensures 1 <= d.row <= n && ((d.ink == Red && d.col == 0) || (d.ink == Green && d.col == 1))
      {
        assert d in before || d in added;
      }
      forall row | 1 <= row <= n
        ensures TextColour(0, row, Red) in r <==> oldTypes[row - 1] == Removed
        ensures TextColour(1, row, Green) in r <==> newTypes[row - 1] == Added
      {
        assert TextColour(0, row, Red) in r <==> TextColour(0, row, Red) in before || TextColour(0, row, Red) in added;
        assert TextColour(1, row, Green) in r <==> TextColour(1, row, Green) in before || TextColour(1, row, Green) in added;
      }
    }
  }

  /** The directives of one chunk row all sit on that row, one per coloured cell. */
  lemma DirectivesMeaning(oldType: LineType, newType: LineType, row: nat)
    ensures forall d :: d in DirectivesAt(oldType, newType, row) ==>
      d.row == row && ((d.ink == Red && d.col == 0) || (d.ink == Green && d.col == 1))
    ensures TextColour(0, row, Red) in DirectivesAt(oldType, newType, row) <==> oldType == Removed
    ensures TextColour(1, row, Green) in DirectivesAt(oldType, newType, row) <==> newType == Added
  {
  }

  /** The directives of a whole chunk: `zip` stops at the shorter type list. */
  function ChunkColours(oldTypes: seq<LineType>, newTypes: seq<LineType>): seq<TextColour> {
    ColoursUpTo(oldTypes, newTypes, Min(|oldTypes|, |newTypes|))
  }

  /**
   * The inner loop of `build_table_pages`: one pass over the chunk's type
   * pairs, numbered from 1, adding a directive per removed or added cell.
   */
  method StyleChunk(oldTypes: seq<LineType>, newTypes: seq<LineType>) returns (colours: seq<TextColour>)
    ensures colours == ChunkColours(oldTypes, newTypes)
  {
    colours := [];
    var n := Min(|oldTypes|, |newTypes|);
    for idx := 1 to n + 1
      invariant colours == ColoursUpTo(oldTypes, newTypes, idx - 1)
    {
      ghost var before := colours;
      if oldTypes[idx - 1] == Removed {
        colours := colours + [TextColour(0, idx, Red)];
      }
      if newTypes[idx - 1] == Added {
        colours := colours + [TextColour(1, idx, Green)];
      }
      assert colours == before + DirectivesAt(oldTypes[idx - 1], newTypes[idx - 1], idx);
    }
  }

  /** The table for the chunk that starts at position `start`. */
  function PageAt(oldLines: seq<string>, newLines: seq<string>,
                  oldTypes: seq<LineType>, newTypes: seq<LineType>, maxRows: nat, start: nat): Page
  {
    var end := start + maxRows;
    Page([HeaderRow] + Zip(Slice(oldLines, start, end), Slice(newLines, start, end)),
         ChunkColours(Slice(oldTypes, start, end), Slice(newTypes, start, end)))
  }

  /** The tables for the chunks that start at `start`, `start + maxRows`, ... below `len(old_lines)`. */
  function PagesFrom(oldLines: seq<string>, newLines: seq<string>,
                     oldTypes: seq<LineType>, newTypes: seq<LineType>, maxRows: nat, start: nat): seq<Page>
    requires maxRows >= 1
    decreases |oldLines| - start
  {
    if start >= |oldLines| then []
    else [PageAt(oldLines, newLines, oldTypes, newTypes, maxRows, start)]
         + PagesFrom(oldLines, newLines, oldTypes, newTypes, maxRows, start + maxRows)
  }

  /** The data rows of all tables, header rows left out, one table after the other. */
  function DataRows(pages: seq<Page>): seq<(string, string)> {
    if pages == [] then []
    else (if pages[0].rows == [] then [] else pages[0].rows[1..]) + DataRows(pages[1..])
  }

  /**
   * `build_table_pages`: a loop over the chunk starts `range(0,
   * len(old_lines), max_rows)` that appends one table per chunk.
   */
  method BuildTablePages(oldLines: seq<string>, newLines: seq<string>,
                         oldTypes: seq<LineType>, newTypes: seq<LineType>, maxRows: nat)
    returns (pages: seq<Page>)
    requires maxRows >= 1
    ensures pages == PagesFrom(oldLines, newLines, oldTypes, newTypes, maxRows, 0)
    ensures |pages| == CeilDiv(|oldLines|, maxRows)
    ensures forall p :: p in pages ==> |p.rows| >= 1 && p.rows[0] == HeaderRow
    ensures DataRows(pages) == Zip(oldLines, newLines)
  {
    pages := [];
    var start := 0;
    while start < |oldLines|
      invariant PagesBefore(oldLines, newLines, oldTypes, newTypes, maxRows, start, pages)
      decreases |oldLines| - start
    {
      var table := ChunkTable(oldLines, newLines, oldTypes, newTypes, maxRows, start);
      PagesFromStep(oldLines, newLines, oldTypes, newTypes, maxRows, start, pages, table);
      pages := pages + [table];
      start := start + maxRows;
    }
    assert pages == pages + PagesFrom(oldLines, newLines, oldTypes, newTypes, maxRows, start);
    PagesFacts(oldLines, newLines, oldTypes, newTypes, maxRows);
  }

  /**
   * The body of the loop of `build_table_pages`: the header row and the
   * zipped chunk `[start, start + maxRows)` of the two text lists, styled by
   * the chunk of the two type lists.
   */
  method ChunkTable(oldLines: seq<string>, newLines: seq<string>,
                    oldTypes: seq<LineType>, newTypes: seq<LineType>, maxRows: nat, start: nat)
    returns (table: Page)
    ensures table == PageAt(oldLines, newLines, oldTypes, newTypes, maxRows, start)
  {
    var end := start + maxRows;
    var rows := [HeaderRow] + Zip(Slice(oldLines, start, end), Slice(newLines, start, end));
    var colours := StyleChunk(Slice(oldTypes, start, end), Slice(newTypes, start, end));
    table := Page(rows, colours);
  }

  /** `pages` are the tables of the chunks before `start`: followed by those from `start` on, they are all the tables. */
  predicate PagesBefore(oldLines: seq<string>, newLines: seq<string>,
                        oldTypes: seq<LineType>, newTypes: seq<LineType>, maxRows: nat, start: nat, pages: seq<Page>)
    requires maxRows >= 1
  {
    pages + PagesFrom(oldLines, newLines, oldTypes, newTypes, maxRows, start)
      == PagesFrom(oldLines, newLines, oldTypes, newTypes, maxRows, 0)
  }

  /** One step of the loop: the table at `start` comes before the tables after it. */
  lemma PagesFromStep(oldLines: seq<string>, newLines: seq<string>,
                      oldTypes: seq<LineType>, newTypes: seq<LineType>, maxRows: nat, start: nat,
                      pages: seq<Page>, page: Page)
    requires maxRows >= 1 && start < |oldLines|
    requires page == PageAt(oldLines, newLines, oldTypes, newTypes, maxRows, start)
    requires PagesBefore(oldLines, newLines, oldTypes, newTypes, maxRows, start, pages)
    ensures PagesBefore(oldLines, newLines, oldTypes, newTypes, maxRows, start + maxRows, pages + [page])
  {
    var rest := PagesFrom(oldLines, newLines, oldTypes, newTypes, maxRows, start + maxRows);
    assert PagesFrom(oldLines, newLines, oldTypes, newTypes, maxRows, start) == [page] + rest;
    SeqAssoc(pages, [page], rest);
  }

  /** The promises of `BuildTablePages`, about the tables from position 0. */
  lemma PagesFacts(oldLines: seq<string>, newLines: seq<string>,
                   oldTypes: seq<LineType>, newTypes: seq<LineType>, maxRows: nat)
    requires maxRows >= 1
    ensures var pages := PagesFrom(oldLines, newLines, oldTypes, newTypes, maxRows, 0);
      && |pages| == CeilDiv(|oldLines|, maxRows)
      && (forall p :: p in pages ==> |p.rows| >= 1 && p.rows[0] == HeaderRow)
      && DataRows(pages) == Zip(oldLines, newLines)
  {
    PageCount(oldLines, newLines, oldTypes, newTypes, maxRows, 0);
    HeadersEverywhere(oldLines, newLines, oldTypes, newTypes, maxRows, 0);
    RowsPartition(oldLines, newLines, oldTypes, newTypes, maxRows, 0);
    assert RowsFrom(oldLines, newLines, oldTypes, newTypes, maxRows, 0);
    assert Drop(oldLines, 0) == oldLines && Drop(newLines, 0) == newLines;
  }

  // ---------------------------------------------------------------------
  // What the pages promise.

  lemma DivUnique(y: int, m: int, q: int, r: int)
    requires m >= 1 && 0 <= r < m && y == q * m + r
    ensures y / m == q
  {
    var q', r' := y / m, y % m;
    assert y == q' * m + r' && 0 <= r' < m;
    assert (q - q') * m == r' - r;
    if q' < q {
      MulAtLeast(q - q', m);
    } else if q < q' {
      MulAtLeast(q' - q, m);
    }
  }

  lemma {:induction false} MulAtLeast(a: nat, m: nat)
    requires a >= 1
    ensures a * m >= m
  {
    if a > 1 {
      MulAtLeast(a - 1, m);
      assert a * m == (a - 1) * m + m;
    }
  }

  lemma CeilDivStep(n: nat, m: nat)
    requires m >= 1 && n > m
    ensures CeilDiv(n, m) == 1 + CeilDiv(n - m, m)
  {
    var x := n - 1;
    var q, r := x / m, x % m;
    assert x == q * m + r;
    assert x + m == (q + 1) * m + r;
    DivUnique(x + m, m, q + 1, r);
  }

  /** There are `ceil(n / max_rows)` tables, counted from `start`. */
  lemma {:induction false} PageCount(oldLines: seq<string>, newLines: seq<string>,
                                     oldTypes: seq<LineType>, newTypes: seq<LineType>, maxRows: nat, start: nat)
    requires maxRows >= 1
    ensures |PagesFrom(oldLines, newLines, oldTypes, newTypes, maxRows, start)|
         == if start >= |oldLines| then 0 else CeilDiv(|oldLines| - start, maxRows)
    decreases |oldLines| - start
  {
    if start < |oldLines| {
      PageCount(oldLines, newLines, oldTypes, newTypes, maxRows, start + maxRows);
      var n := |oldLines| - start;
      assert |PagesFrom(oldLines, newLines, oldTypes, newTypes, maxRows, start)|
          == 1 + |PagesFrom(oldLines, newLines, oldTypes, newTypes, maxRows, start + maxRows)|;
      if n > maxRows {
        CeilDivStep(n, maxRows);
      } else {
        DivUnique(n + maxRows - 1, maxRows, 1, n - 1);
      }
    }
  }

  /** Every table starts with the header row. */
  lemma {:induction false} HeadersEverywhere(oldLines: seq<string>, newLines: seq<string>,
                                             oldTypes: seq<LineType>, newTypes: seq<LineType>, maxRows: nat, start: nat)
    requires maxRows >= 1
    ensures forall p :: p in PagesFrom(oldLines, newLines, oldTypes, newTypes, maxRows, start) ==>
      |p.rows| >= 1 && p.rows[0] == HeaderRow
    decreases |oldLines| - start
  {
    if start < |oldLines| {
      HeadersEverywhere(oldLines, newLines, oldTypes, newTypes, maxRows, start + maxRows);
    }
  }

  /** `zip` of two concatenations, when the first halves line up or the second halves are past the end. */
  lemma ZipAppend<A, B>(a1: seq<A>, a2: seq<A>, b1: seq<B>, b2: seq<B>)
    requires |a1| == |b1| || (|a1| < |b1| && a2 == []) || (|b1| < |a1| && b2 == [])
    ensures Zip(a1, b1) + Zip(a2, b2) == Zip(a1 + a2, b1 + b2)
  {
  }

  /**
   * Reading the data rows of the tables from `start` on, one table after
   * the other, gives the zipped lists from `start` on.
   */
  lemma {:induction false} RowsPartition(oldLines: seq<string>, newLines: seq<string>,
                                         oldTypes: seq<LineType>, newTypes: seq<LineType>, maxRows: nat, start: nat)
    requires maxRows >= 1
    ensures RowsFrom(oldLines, newLines, oldTypes, newTypes, maxRows, start)
    decreases |oldLines| - start
  {
    if start >= |oldLines| {
      assert Drop(oldLines, start) == [];
    } else {
      RowsPartition(oldLines, newLines, oldTypes, newTypes, maxRows, start + maxRows);
      RowsPartitionStep(oldLines, newLines, oldTypes, newTypes, maxRows, start);
    }
  }

  /** The data rows of the tables from `start` on are the zipped lists from `start` on. */
  predicate RowsFrom(oldLines: seq<string>, newLines: seq<string>,
                     oldTypes: seq<LineType>, newTypes: seq<LineType>, maxRows: nat, start: nat)
    requires maxRows >= 1
  {
    DataRows(PagesFrom(oldLines, newLines, oldTypes, newTypes, maxRows, start))
      == Zip(Drop(oldLines, start), Drop(newLines, start))
  }

  /** The inductive step of `RowsPartition`: the first table's data rows, then the rest. */
  lemma RowsPartitionStep(oldLines: seq<string>, newLines: seq<string>,
                          oldTypes: seq<LineType>, newTypes: seq<LineType>, maxRows: nat, start: nat)
    requires maxRows >= 1 && start < |oldLines|
    requires RowsFrom(oldLines, newLines, oldTypes, newTypes, maxRows, start + maxRows)
    ensures RowsFrom(oldLines, newLines, oldTypes, newTypes, maxRows, start)
  {
    var end := start + maxRows;
    var rest := PagesFrom(oldLines, newLines, oldTypes, newTypes, maxRows, end);
    var a2, b2 := Drop(oldLines, end), Drop(newLines, end);
    assert DataRows(rest) == Zip(a2, b2);
    var pages := PagesFrom(oldLines, newLines, oldTypes, newTypes, maxRows, start);
    var first := PageAt(oldLines, newLines, oldTypes, newTypes, maxRows, start);
    var a1, b1 := Slice(oldLines, start, end), Slice(newLines, start, end);
    assert pages == [first] + rest;
    assert first.rows == [HeaderRow] + Zip(a1, b1);
    SliceThenDrop(oldLines, start, end);
    SliceThenDrop(newLines, start, end);
    DataRowsCons(first, rest, a1, b1, a2, b2);
  }

  /** The data rows of one more table in front, whose rows are the zipped chunks `a1` and `b1`. */
  lemma DataRowsCons(first: Page, rest: seq<Page>, a1: seq<string>, b1: seq<string>, a2: seq<string>, b2: seq<string>)
    requires first.rows == [HeaderRow] + Zip(a1, b1)
    requires DataRows(rest) == Zip(a2, b2)
    requires |a1| == |b1| || (|a1| < |b1| && a2 == []) || (|b1| < |a1| && b2 == [])
    ensures DataRows([first] + rest) == Zip(a1 + a2, b1 + b2)
  {
    assert ([first] + rest)[1..] == rest;
    ZipAppend(a1, a2, b1, b2);
  }

  /** `s[lo:hi] + s[hi:] == s[lo:]` */
  lemma SliceThenDrop<T>(s: seq<T>, lo: nat, hi: nat)
    requires lo <= hi
    ensures Slice(s, lo, hi) + Drop(s, hi) == Drop(s, lo)
  {
    if hi <= |s| {
      assert s[lo..hi] + s[hi..] == s[lo..];
    }
  }

  /** Where chunk `k` starts, counting chunks of `maxRows` from `start`. */
  function ChunkStart(start: nat, k: nat, maxRows: nat): nat
    decreases k
  {
    if k == 0 then start else ChunkStart(start + maxRows, k - 1, maxRows)
  }

  /** Chunk `k` starts `k * maxRows` positions after `start`, as `range(start, n, maxRows)` counts. */
  lemma {:induction false} ChunkStartIsMultiple(start: nat, k: nat, maxRows: nat)
    ensures ChunkStart(start, k, maxRows) == start + k * maxRows
    decreases k
  {
    if k > 0 {
      ChunkStartIsMultiple(start + maxRows, k - 1, maxRows);
      assert k * maxRows == (k - 1) * maxRows + maxRows;
    }
  }

  /** The tables from `start` on: the first one, then those from the next chunk on. */
  lemma PagesFromUnfold(oldLines: seq<string>, newLines: seq<string>,
                        oldTypes: seq<LineType>, newTypes: seq<LineType>, maxRows: nat, start: nat)
    requires maxRows >= 1 && start < |oldLines|
    ensures var pages := PagesFrom(oldLines, newLines, oldTypes, newTypes, maxRows, start);
      && pages[0] == PageAt(oldLines, newLines, oldTypes, newTypes, maxRows, start)
      && pages[1..] == PagesFrom(oldLines, newLines, oldTypes, newTypes, maxRows, start + maxRows)
  {
  }

  /** The tables after the first are those from the next chunk on. */
  lemma PagesFromTail(oldLines: seq<string>, newLines: seq<string>,
                      oldTypes: seq<LineType>, newTypes: seq<LineType>, maxRows: nat, start: nat)
    requires maxRows >= 1 && start < |oldLines|
    ensures var pages := PagesFrom(oldLines, newLines, oldTypes, newTypes, maxRows, start);
      pages != [] && pages[1..] == PagesFrom(oldLines, newLines, oldTypes, newTypes, maxRows, start + maxRows)
  {
  }

  /** No table starts at or past the end of the old column. */
  lemma PagesFromPast(oldLines: seq<string>, newLines: seq<string>,
                      oldTypes: seq<LineType>, newTypes: seq<LineType>, maxRows: nat, start: nat)
    requires maxRows >= 1
    ensures PagesFrom(oldLines, newLines, oldTypes, newTypes, maxRows, start) != [] <==> start < |oldLines|
  {
  }

  /** Table `k` holds the chunk that starts at position `ChunkStart(start, k, maxRows)`. */
  lemma PageIsChunk(oldLines: seq<string>, newLines: seq<string>,
                    oldTypes: seq<LineType>, newTypes: seq<LineType>, maxRows: nat, start: nat, k: nat)
    requires maxRows >= 1
    requires k < |PagesFrom(oldLines, newLines, oldTypes, newTypes, maxRows, start)|
    ensures ChunkStart(start, k, maxRows) < |oldLines|
    ensures PagesFrom(oldLines, newLines, oldTypes, newTypes, maxRows, start)[k]
         == PageAt(oldLines, newLines, oldTypes, newTypes, maxRows, ChunkStart(start, k, maxRows))
  {
    ChunkPageHolds(oldLines, newLines, oldTypes, newTypes, maxRows, start, k);
  }

  /** Table `k` from `start`, if there is one, is the page of the chunk at `ChunkStart(start, k, maxRows)`. */
  predicate ChunkPage(oldLines: seq<string>, newLines: seq<string>,
                      oldTypes: seq<LineType>, newTypes: seq<LineType>, maxRows: nat, start: nat, k: nat)
    requires maxRows >= 1
  {
    var pages := PagesFrom(oldLines, newLines, oldTypes, newTypes, maxRows, start);
    k < |pages| ==>
      && ChunkStart(start, k, maxRows) < |oldLines|
      && pages[k] == PageAt(oldLines, newLines, oldTypes, newTypes, maxRows, ChunkStart(start, k, maxRows))
  }

  lemma {:induction false} ChunkPageHolds(oldLines: seq<string>, newLines: seq<string>,
                                          oldTypes: seq<LineType>, newTypes: seq<LineType>, maxRows: nat, start: nat, k: nat)
    requires maxRows >= 1
    ensures ChunkPage(oldLines, newLines, oldTypes, newTypes, maxRows, start, k)
    decreases k
  {
    if k == 0 {
      PagesFromPast(oldLines, newLines, oldTypes, newTypes, maxRows, start);
      if start < |oldLines| {
        PagesFromUnfold(oldLines, newLines, oldTypes, newTypes, maxRows, start);
      }
    } else {
      ChunkPageHolds(oldLines, newLines, oldTypes, newTypes, maxRows, start + maxRows, k - 1);
      ChunkPageStep(oldLines, newLines, oldTypes, newTypes, maxRows, start, k);
    }
  }

  /** The inductive step of `ChunkPageHolds`: table `k` from `start` is table `k - 1` from the next chunk. */
  lemma ChunkPageStep(oldLines: seq<string>, newLines: seq<string>,
                      oldTypes: seq<LineType>, newTypes: seq<LineType>, maxRows: nat, start: nat, k: nat)
    requires maxRows >= 1 && k > 0
    requires ChunkPage(oldLines, newLines, oldTypes, newTypes, maxRows, start + maxRows, k - 1)
    ensures ChunkPage(oldLines, newLines, oldTypes, newTypes, maxRows, start, k)
  {
    var pages := PagesFrom(oldLines, newLines, oldTypes, newTypes, maxRows, start);
    var next := start + maxRows;
    PagesFromPast(oldLines, newLines, oldTypes, newTypes, maxRows, start);
    if k < |pages| {
      PagesFromTail(oldLines, newLines, oldTypes, newTypes, maxRows, start);
      IndexShift(pages, PagesFrom(oldLines, newLines, oldTypes, newTypes, maxRows, next), k,
                 PageAt(oldLines, newLines, oldTypes, newTypes, maxRows, ChunkStart(next, k - 1, maxRows)));
    }
  }

  /**
   * `page` is the table of the chunk at `start` of four lists of equal
   * length: it has a data row per position of the chunk, table row `row`
   * holds position `start + row - 1`, its old cell is red exactly when that
   * position is typed removed, its new cell green exactly when it is typed
   * added, and no other cell is coloured.
   */
  predicate ChunkLayout(page: Page, oldLines: seq<string>, newLines: seq<string>,
                        oldTypes: seq<LineType>, newTypes: seq<LineType>, maxRows: nat, start: nat) {
    && |newLines| == |oldTypes| == |newTypes| == |oldLines|
    && start < |oldLines|
    && |page.rows| == 1 + Min(maxRows, |oldLines| - start)
    && (forall row :: 1 <= row < |page.rows| ==>
          && page.rows[row] == (oldLines[start + row - 1], newLines[start + row - 1])
          && (TextColour(0, row, Red) in page.colours <==> oldTypes[start + row - 1] == Removed)
          && (TextColour(1, row, Green) in page.colours <==> newTypes[start + row - 1] == Added))
    && (forall d :: d in page.colours ==> 1 <= d.row < |page.rows|)
  }

  /** The table of the chunk at `start` has the layout of that chunk. */
  lemma ChunkShape(oldLines: seq<string>, newLines: seq<string>,
                   oldTypes: seq<LineType>, newTypes: seq<LineType>, maxRows: nat, start: nat)
    requires |newLines| == |oldTypes| == |newTypes| == |oldLines| && start < |oldLines|
    ensures ChunkLayout(PageAt(oldLines, newLines, oldTypes, newTypes, maxRows, start),
                        oldLines, newLines, oldTypes, newTypes, maxRows, start)
  {
    ChunkRows(oldLines, newLines, oldTypes, newTypes, maxRows, start);
    ChunkCells(oldTypes, newTypes, maxRows, start);
  }

  /** The rows of the table of the chunk at `start`: the header, then one row per position. */
  lemma ChunkRows(oldLines: seq<string>, newLines: seq<string>,
                  oldTypes: seq<LineType>, newTypes: seq<LineType>, maxRows: nat, start: nat)
    requires |newLines| == |oldLines| && start < |oldLines|
    ensures var page := PageAt(oldLines, newLines, oldTypes, newTypes, maxRows, start);
      && |page.rows| == 1 + Min(maxRows, |oldLines| - start)
      && forall row :: 1 <= row < |page.rows| ==>
           page.rows[row] == (oldLines[start + row - 1], newLines[start + row - 1])
  {
    var end := start + maxRows;
    var page := PageAt(oldLines, newLines, oldTypes, newTypes, maxRows, start);
    var ol, nl := Slice(oldLines, start, end), Slice(newLines, start, end);
    assert page.rows == [HeaderRow] + Zip(ol, nl);
    forall row | 1 <= row < |page.rows|
      ensures page.rows[row] == (oldLines[start + row - 1], newLines[start + row - 1])
    {
      assert page.rows[row] == (ol[row - 1], nl[row - 1]);
    }
  }

  /** The colours of the chunk at `start` of two type lists of equal length, one cell at a time. */
  lemma ChunkCells(oldTypes: seq<LineType>, newTypes: seq<LineType>, maxRows: nat, start: nat)
    requires |oldTypes| == |newTypes| && start < |oldTypes|
    ensures var colours := ChunkColours(Slice(oldTypes, start, start + maxRows), Slice(newTypes, start, start + maxRows));
      var m := Min(maxRows, |oldTypes| - start);
      && (forall row :: 1 <= row <= m ==>
           && (TextColour(0, row, Red) in colours <==> oldTypes[start + row - 1] == Removed)
           && (TextColour(1, row, Green) in colours <==> newTypes[start + row - 1] == Added))
      && (forall d :: d in colours ==> 1 <= d.row <= m)
  {
    var m := Min(maxRows, |oldTypes| - start);
    var ot, nt := Slice(oldTypes, start, start + maxRows), Slice(newTypes, start, start + maxRows);
    assert |ot| == |nt| == m;
    ColoursMeaning(ot, nt, m);
    assert forall k :: 0 <= k < m ==> ot[k] == oldTypes[start + k] && nt[k] == newTypes[start + k];
  }

  /**
   * When the new column is at least as long as the old one, every table
   * but the last is full: it holds `maxRows` data rows after its header.
   */
  lemma {:induction false} FullPages(oldLines: seq<string>, newLines: seq<string>,
                                     oldTypes: seq<LineType>, newTypes: seq<LineType>, maxRows: nat, start: nat)
    requires maxRows >= 1 && |newLines| >= |oldLines|
    ensures var pages := PagesFrom(oldLines, newLines, oldTypes, newTypes, maxRows, start);
      forall k :: 0 <= k < |pages| - 1 ==> |pages[k].rows| == maxRows + 1
    decreases |oldLines| - start
  {
    if start < |oldLines| {
      var pages := PagesFrom(oldLines, newLines, oldTypes, newTypes, maxRows, start);
      var rest := PagesFrom(oldLines, newLines, oldTypes, newTypes, maxRows, start + maxRows);
      PagesFromUnfold(oldLines, newLines, oldTypes, newTypes, maxRows, start);
      FullPages(oldLines, newLines, oldTypes, newTypes, maxRows, start + maxRows);
      if rest != [] {
        var end := start + maxRows;
        assert end < |oldLines|;
        assert |Slice(oldLines, start, end)| == maxRows && |Slice(newLines, start, end)| == maxRows;
        assert |pages[0].rows| == maxRows + 1;
        forall k | 1 <= k < |pages| - 1
          ensures |pages[k].rows| == maxRows + 1
        {
          assert pages[k] == rest[k - 1];
        }
      }
    }
  }

  /** Table `k` has the layout of the chunk at position `k * maxRows`, when the four lists have equal length. */
  lemma PageColours(oldLines: seq<string>, newLines: seq<string>,
                    oldTypes: seq<LineType>, newTypes: seq<LineType>, maxRows: nat, k: nat)
    requires maxRows >= 1
    requires |newLines| == |oldTypes| == |newTypes| == |oldLines|
    requires k < |PagesFrom(oldLines, newLines, oldTypes, newTypes, maxRows, 0)|
    ensures ChunkLayout(PagesFrom(oldLines, newLines, oldTypes, newTypes, maxRows, 0)[k],
                        oldLines, newLines, oldTypes, newTypes, maxRows, ChunkStart(0, k, maxRows))
  {
    PageIsChunk(oldLines, newLines, oldTypes, newTypes, maxRows, 0, k);
    ChunkShape(oldLines, newLines, oldTypes, newTypes, maxRows, ChunkStart(0, k, maxRows));
  }

  /**
   * The report's own call, `max_rows=40`, on 85 changed lines: two full
   * tables of 40 data rows and a last one of 5, each under its header.
   */
  lemma EightyFiveLines(oldLines: seq<string>, newLines: seq<string>,
                        oldTypes: seq<LineType>, newTypes: seq<LineType>)
    requires |oldLines| == |newLines| == |oldTypes| == |newTypes| == 85
    ensures var pages := PagesFrom(oldLines, newLines, oldTypes, newTypes, DefaultMaxRows, 0);
      && |pages| == 3
      && |pages[0].rows| == 41 && |pages[1].rows| == 41 && |pages[2].rows| == 6
      && pages[0].rows[0] == pages[1].rows[0] == pages[2].rows[0] == HeaderRow
  {
    var pages := PagesFrom(oldLines, newLines, oldTypes, newTypes, DefaultMaxRows, 0);
    PageCount(oldLines, newLines, oldTypes, newTypes, DefaultMaxRows, 0);
    assert CeilDiv(85, 40) == 3;
    FullPages(oldLines, newLines, oldTypes, newTypes, DefaultMaxRows, 0);
    HeadersEverywhere(oldLines, newLines, oldTypes, newTypes, DefaultMaxRows, 0);
    assert pages[0] in pages && pages[1] in pages && pages[2] in pages;
    PageIsChunk(oldLines, newLines, oldTypes, newTypes, DefaultMaxRows, 0, 2);
    ChunkStartIsMultiple(0, 2, DefaultMaxRows);
    ChunkRows(oldLines, newLines, oldTypes, newTypes, DefaultMaxRows, 80);
  }
}
