/**
 * What the summariser is given. Each variant keeps the lines of a diff
 * text that start with '+' or '-', joins them with newlines and keeps the
 * first 4000 characters; an empty result is reported with a fixed
 * sentence instead of a call to the language model. The model call itself
 * and the wording of its prompt are not modelled: a summary is either a
 * fixed sentence or the snippet the model would be asked about.
 */
module Summary {
  import opened PyText
  import opened Ndiff

  /** The snippet is cut to this many characters. */
  const SnippetLimit: nat := 4000

  /** What a file's summary is made of. */
  datatype Outcome =
    | Fixed(text: string)        // a fixed sentence; the model is not called
    | FromModel(snippet: string) // the model is asked to summarise this snippet

  /** `line.startswith('+') or line.startswith('-')` */
  predicate Signed(line: string) {
    StartsWith(line, "+") || StartsWith(line, "-")
  }

  /** The signed lines, in their original order. */
  function Filter(lines: seq<string>): (r: seq<string>)
    ensures |r| <= |lines|
    ensures forall l :: l in r <==> l in lines && Signed(l)
  {
    if |lines| == 0 then []
    else
      var init := lines[..|lines| - 1];
      var last := lines[|lines| - 1];
      assert lines == init + [last];
      Filter(init) + (if Signed(last) then [last] else [])
  }

  /**
   * `"\n".join(signed lines)[:4000]`: the first `min(4000, len)` characters
   * of the joined signed lines; it is empty exactly when no line is signed.
   */
  function Snippet(lines: seq<string>): (r: string)
    ensures |r| <= SnippetLimit
    ensures var joined := Join("\n", Filter(lines));
      |r| == (if |joined| <= SnippetLimit then |joined| else SnippetLimit) && r == joined[..|r|]
    ensures r == [] <==> forall k :: 0 <= k < |lines| ==> !Signed(lines[k])
  {
    var parts := Filter(lines);
    assert parts != [] ==> parts[0] in parts;
    assert (forall k :: 0 <= k < |lines| ==> !Signed(lines[k])) <==> (forall l :: l in lines ==> !Signed(l));
    Take(Join("\n", parts), SnippetLimit)
  }

  /**
   * `summarize_diff` up to the model call: the sentence
   * "No significant changes detected in {filename}." when no line of the
   * text is signed, otherwise the snippet, which is then never empty.
   */
  function SummarizeDiff(diffText: string, filename: string): (r: Outcome)
    ensures r.Fixed? <==> forall l :: l in SplitLines(diffText) ==> !Signed(l)
    ensures r.Fixed? ==> r.text == "No significant changes detected in " + filename + "."
    ensures r.FromModel? ==> r.snippet == Snippet(SplitLines(diffText)) && 1 <= |r.snippet| <= SnippetLimit
  {
    var lines := SplitLines(diffText);
    var snippet := Snippet(lines);
    assert (forall l :: l in lines ==> !Signed(l)) <==> (forall k :: 0 <= k < |lines| ==> !Signed(lines[k]));
    if snippet == [] then Fixed("No significant changes detected in " + filename + ".")
    else FromModel(snippet)
  }

  /** `[diff[i] for i in included]` */
  function Gather(diff: seq<string>, included: seq<nat>): (r: seq<string>)
    requires forall k :: 0 <= k < |included| ==> included[k] < |diff|
    ensures |r| == |included| && forall k :: 0 <= k < |included| ==> r[k] == diff[included[k]]
  {
    seq(|included|, k requires 0 <= k < |included| => diff[included[k]])
  }

  /**
   * The summary of the live page, over the retained lines of one file:
   * "No significant changes detected." when none of them is signed,
   * otherwise their snippet.
   */
  function WindowSummary(diff: seq<string>, included: seq<nat>): (r: Outcome)
    requires forall k :: 0 <= k < |included| ==> included[k] < |diff|
    ensures r.Fixed? <==> forall k :: 0 <= k < |included| ==> !Signed(diff[included[k]])
    ensures r.Fixed? ==> r.text == "No significant changes detected."
    ensures r.FromModel? ==> r.snippet == Snippet(Gather(diff, included)) && 1 <= |r.snippet| <= SnippetLimit
  {
    var snippet := Snippet(Gather(diff, included));
    if snippet == [] then Fixed("No significant changes detected.") else FromModel(snippet)
  }

  /**
   * `compare.py`'s branch on the whole unified diff: a text that is empty
   * or only whitespace gets "No differences detected in {filename}." and
   * the summariser is not called; any other text goes to `summarize_diff`.
   * The model is asked exactly when some line of the text is signed.
   */
  function CompareSummary(diffText: string, filename: string): (r: Outcome)
    ensures r.FromModel? <==> exists l :: l in SplitLines(diffText) && Signed(l)
    ensures r.FromModel? ==> r.snippet == Snippet(SplitLines(diffText))
    ensures r.Fixed? ==> r.text == if AllSpace(diffText) then "No differences detected in " + filename + "."
                                   else "No significant changes detected in " + filename + "."
  {
    if Strip(diffText) == [] then
      BlankTextHasNoSignedLine(diffText);
      Fixed("No differences detected in " + filename + ".")
    else SummarizeDiff(diffText, filename)
  }

  /** No line of a whitespace-only text is signed. */
  lemma BlankTextHasNoSignedLine(s: string)
    requires AllSpace(s)
    ensures forall l :: l in SplitLines(s) ==> !Signed(l)
  {
    SplitLinesOfSpace(s);
    forall l | l in SplitLines(s) ensures !Signed(l) {
      if l != [] {
        assert IsSpace(l[0]);
      }
    }
  }

  // ---------------------------------------------------------------------
  // Filtering laws.

  /** Filtering a concatenation filters each half. */
  lemma {:induction false} FilterAppend(a: seq<string>, b: seq<string>)
    ensures Filter(a + b) == Filter(a) + Filter(b)
    decreases |b|
  {
    if b != [] {
      var b' := b[..|b| - 1];
      var last := b[|b| - 1];
      assert (a + b)[..|a + b| - 1] == a + b';
      FilterAppend(a, b');
    } else {
      assert a + b == a;
    }
  }

  /** Filtering keeps a list whose every line is signed. */
  lemma {:induction false} FilterKeepsSigned(lines: seq<string>)
    requires forall k :: 0 <= k < |lines| ==> Signed(lines[k])
    ensures Filter(lines) == lines
  {
    if lines != [] {
      var init := lines[..|lines| - 1];
      FilterKeepsSigned(init);
      assert lines == init + [lines[|lines| - 1]];
    }
  }

  /**
   * Gathering a strictly ascending list of indices below `n` that takes in
   * every signed line below `n` loses none of the signed lines and adds none.
   */
  lemma {:induction false} FilterGather(diff: seq<string>, included: seq<nat>, n: nat)
    requires n <= |diff|
    requires StrictlyIncreasing(included)
    requires forall k :: 0 <= k < |included| ==> included[k] < n
    requires forall i :: 0 <= i < n && Signed(diff[i]) ==> i in included
    ensures Filter(Gather(diff, included)) == Filter(diff[..n])
    decreases n
  {
    if included == [] {
      var prefix := diff[..n];
      forall l | l in prefix ensures !Signed(l) {
        var i :| 0 <= i < n && prefix[i] == l;
      }
      FilterEmpty(prefix);
    } else {
      assert included[0] < n;
      var last := n - 1;
      if last in included {
        var init := included[..|included| - 1];
        LastIndexIsLast(included, last);
        FilterGather(diff, init, last);
        GatherKeepsLast(diff, included, n);
      } else {
        forall k | 0 <= k < |included| ensures included[k] < last {
          assert included[k] in included;
        }
        FilterGather(diff, included, last);
        GatherSkipsLast(diff, included, n);
      }
    }
  }

  /** The step of `FilterGather` when the last line below `n` is gathered. */
  lemma GatherKeepsLast(diff: seq<string>, included: seq<nat>, n: nat)
    requires 0 < n <= |diff| && included != [] && included[|included| - 1] == n - 1
    requires forall k :: 0 <= k < |included| ==> included[k] < n
    requires Filter(Gather(diff, included[..|included| - 1])) == Filter(diff[..n - 1])
    ensures Filter(Gather(diff, included)) == Filter(diff[..n])
  {
    var init := included[..|included| - 1];
    assert diff[..n] == diff[..n - 1] + [diff[n - 1]];
    assert Gather(diff, included) == Gather(diff, init) + [diff[n - 1]];
    FilterSnoc(diff[..n - 1], diff[n - 1]);
    FilterSnoc(Gather(diff, init), diff[n - 1]);
  }

  /** The step of `FilterGather` when the last line below `n` is not gathered. */
  lemma GatherSkipsLast(diff: seq<string>, included: seq<nat>, n: nat)
    requires 0 < n <= |diff| && !Signed(diff[n - 1])
    requires forall k :: 0 <= k < |included| ==> included[k] < |diff|
    requires Filter(Gather(diff, included)) == Filter(diff[..n - 1])
    ensures Filter(Gather(diff, included)) == Filter(diff[..n])
  {
    assert diff[..n] == diff[..n - 1] + [diff[n - 1]];
    FilterSnoc(diff[..n - 1], diff[n - 1]);
  }

  /** Filtering leaves nothing exactly when no line is signed. */
  lemma FilterEmpty(lines: seq<string>)
    ensures Filter(lines) == [] <==> forall l :: l in lines ==> !Signed(l)
  {
    assert Filter(lines) != [] ==> Filter(lines)[0] in Filter(lines);
  }

  /** Filtering a list with one more line at the end. */
  lemma FilterSnoc(lines: seq<string>, line: string)
    ensures Filter(lines + [line]) == Filter(lines) + if Signed(line) then [line] else []
  {
    assert (lines + [line])[..|lines|] == lines;
  }

  /** In an ascending list of indices below `last + 1` that holds `last`, `last` comes at the end. */
  lemma LastIndexIsLast(included: seq<nat>, last: nat)
    requires StrictlyIncreasing(included) && last in included
    requires forall k :: 0 <= k < |included| ==> included[k] <= last
    ensures included[|included| - 1] == last
    ensures var init := included[..|included| - 1];
      && StrictlyIncreasing(init)
      && (forall k :: 0 <= k < |init| ==> init[k] < last)
      && (forall i :: i in included && i != last ==> i in init)
  {
    var m := |included| - 1;
    var j :| 0 <= j <= m && included[j] == last;
    assert included[m] == last;
    var init := included[..m];
    forall i | i in included && i != last ensures i in init {
      var t :| 0 <= t <= m && included[t] == i;
      assert init[t] == i;
    }
  }

  /**
   * On an `ndiff` line list, the live page's summary over any window that
   * keeps every change (as the windower's output does) is the summary over
   * the whole diff: the context lines never reach the snippet.
   */
  lemma WindowSnippetIsWholeSnippet(diff: seq<string>, included: seq<nat>)
    requires WellFormedDiff(diff)
    requires StrictlyIncreasing(included)
    requires forall k :: 0 <= k < |included| ==> included[k] < |diff|
    requires forall i :: 0 <= i < |diff| && IsChange(diff[i]) ==> i in included
    ensures Snippet(Gather(diff, included)) == Snippet(diff)
    ensures WindowSummary(diff, included) == WindowSummary(diff, ChangeIndices(diff))
  {
    WindowKeepsSignedLines(diff, included);
    var changes := ChangeIndices(diff);
    forall i | 0 <= i < |diff| && IsChange(diff[i]) ensures i in changes {
    }
    WindowKeepsSignedLines(diff, changes);
  }

  /** The signed lines of a window that keeps every change are the signed lines of the diff. */
  lemma WindowKeepsSignedLines(diff: seq<string>, included: seq<nat>)
    requires WellFormedDiff(diff)
    requires StrictlyIncreasing(included)
    requires forall k :: 0 <= k < |included| ==> included[k] < |diff|
    requires forall i :: 0 <= i < |diff| && IsChange(diff[i]) ==> i in included
    ensures Filter(Gather(diff, included)) == Filter(diff)
    ensures Snippet(Gather(diff, included)) == Snippet(diff)
  {
    forall i | 0 <= i < |diff| && Signed(diff[i]) ensures i in included {
      SignedIsChange(diff[i]);
    }
    FilterGather(diff, included, |diff|);
    assert diff[..|diff|] == diff;
  }

  // ---------------------------------------------------------------------
  // The summary input of the batch report.

  /** `[f"{mark}{l}" for l in lines if l]` */
  function Marked(mark: string, lines: seq<string>): (r: seq<string>)
    ensures |r| <= |lines|
    ensures forall l :: l in lines && l != [] ==> mark + l in r
    ensures forall x :: x in r ==> exists l :: l in lines && l != [] && x == mark + l
  {
    if lines == [] then []
    else (if lines[0] == [] then [] else [mark + lines[0]]) + Marked(mark, lines[1..])
  }

  /** One line is marked when it is non-empty and dropped otherwise. */
  lemma MarkedSingle(mark: string, l: string)
    ensures Marked(mark, [l]) == if l == [] then [] else [mark + l]
  {
  }

  /**
   * Marking keeps the original order and multiplicity: the marked form of a
   * concatenation is the concatenation of the marked forms.
   */
  lemma {:induction false} MarkedAppend(mark: string, a: seq<string>, b: seq<string>)
    ensures Marked(mark, a + b) == Marked(mark, a) + Marked(mark, b)
  {
    if a == [] {
      assert a + b == b;
    } else {
      assert (a + b)[1..] == a[1..] + b;
      MarkedAppend(mark, a[1..], b);
    }
  }

  /**
   * The text handed to `summarize_diff` in the batch report: a "- " line per
   * non-empty old entry, a newline, then a "+ " line per non-empty new entry.
   */
  function DiffText(oldLines: seq<string>, newLines: seq<string>): (r: string)
    ensures (forall l :: l in oldLines ==> l == []) && (forall l :: l in newLines ==> l == []) ==> r == "\n"
    ensures (exists l :: l in oldLines && l != []) ==> StartsWith(r, "- ")
    ensures (forall l :: l in oldLines ==> l == []) && (exists l :: l in newLines && l != []) ==> StartsWith(r, "\n+ ")
  {
    var removed, added := Marked("- ", oldLines), Marked("+ ", newLines);
    MarkedEmpty("- ", oldLines);
    MarkedEmpty("+ ", newLines);
    MarkedOpens("- ", oldLines);
    MarkedOpens("+ ", newLines);
    Join("\n", removed) + "\n" + Join("\n", added)
  }

  /** A non-empty marked list joins into a text that opens with the mark. */
  lemma MarkedOpens(mark: string, lines: seq<string>)
    ensures Marked(mark, lines) != [] ==> StartsWith(Join("\n", Marked(mark, lines)), mark)
  {
    var marked := Marked(mark, lines);
    if marked != [] {
      assert marked[0] in marked;
      var l :| l in lines && l != [] && marked[0] == mark + l;
      assert Join("\n", marked)[..|marked[0]|] == marked[0];
      assert marked[0][..|mark|] == mark;
    }
  }

  /** A marked line is free of line breaks when its text is. */
  lemma MarkedNoBreak(mark: string, lines: seq<string>)
    requires NoBreak(mark) && forall l :: l in lines ==> NoBreak(l)
    ensures forall k :: 0 <= k < |Marked(mark, lines)| ==> NoBreak(Marked(mark, lines)[k])
  {
    var r := Marked(mark, lines);
    forall k | 0 <= k < |r| ensures NoBreak(r[k]) {
      assert r[k] in r;
      var l :| l in lines && l != [] && r[k] == mark + l;
      assert forall t :: |mark| <= t < |r[k]| ==> r[k][t] == l[t - |mark|];
    }
  }

  /**
   * When no entry holds a line break, the signed lines the summariser sees
   * are exactly the marked old entries followed by the marked new entries.
   */
  lemma DiffTextSignedLines(oldLines: seq<string>, newLines: seq<string>)
    requires forall l :: l in oldLines ==> NoBreak(l)
    requires forall l :: l in newLines ==> NoBreak(l)
    ensures Filter(SplitLines(DiffText(oldLines, newLines))) == Marked("- ", oldLines) + Marked("+ ", newLines)
  {
    var removed, added := Marked("- ", oldLines), Marked("+ ", newLines);
    MarkedNoBreak("- ", oldLines);
    MarkedNoBreak("+ ", newLines);
    forall k | 0 <= k < |removed| ensures Signed(removed[k]) {
      assert removed[k] in removed;
      var l :| l in oldLines && l != [] && removed[k] == "- " + l;
      assert removed[k][..1] == "-";
    }
    forall k | 0 <= k < |added| ensures Signed(added[k]) {
      assert added[k] in added;
      var l :| l in newLines && l != [] && added[k] == "+ " + l;
      assert added[k][..1] == "+";
    }
    SplitJoin(added);
    FilterKeepsSigned(added);
    FilterKeepsSigned(removed);
    var tail := Join("\n", added);
    if removed != [] {
      SplitJoinThen(removed, tail);
      FilterAppend(removed, added);
    } else {
      assert DiffText(oldLines, newLines) == [] + "\n" + tail;
      SplitLinesCons([], tail);
      FilterAppend([[]], added);
    }
  }

  /**
   * The batch report reports "No significant changes detected in
   * {filename}." exactly when every old and every new entry is empty.
   */
  lemma NoChangesIffAllEntriesEmpty(oldLines: seq<string>, newLines: seq<string>, filename: string)
    ensures SummarizeDiff(DiffText(oldLines, newLines), filename).Fixed?
        <==> (forall l :: l in oldLines ==> l == []) && (forall l :: l in newLines ==> l == [])
  {
    var removed, added := Marked("- ", oldLines), Marked("+ ", newLines);
    MarkedEmpty("- ", oldLines);
    MarkedEmpty("+ ", newLines);
    var text := DiffText(oldLines, newLines);
    var tail := Join("\n", added);
    if removed != [] {
      MarkedLeads(removed, "- ", oldLines, tail, text);
    } else {
      assert text == "\n" + tail;
      SplitLinesCons([], tail);
      if added != [] {
        MarkedLeads(added, "+ ", newLines, [], tail);
        assert SplitLines(tail)[0] in SplitLines(text);
      } else {
        assert SplitLines(text) == [[]];
      }
    }
  }

  /**
   * A text that opens with the join of a non-empty marked list has a signed
   * first line, whatever the entries hold.
   */
  lemma MarkedLeads(marked: seq<string>, mark: string, lines: seq<string>, rest: string, text: string)
    requires mark == "- " || mark == "+ "
    requires marked == Marked(mark, lines) && marked != []
    requires text == Join("\n", marked) + rest || text == Join("\n", marked) + "\n" + rest
    ensures SplitLines(text) != [] && Signed(SplitLines(text)[0])
  {
    assert marked[0] in marked;
    var l :| l in lines && l != [] && marked[0] == mark + l;
    var joined := Join("\n", marked);
    assert joined[..|marked[0]|] == marked[0];
    assert text[0] == joined[0] == mark[0];
    FirstLineStart(text);
    assert SplitLines(text)[0][..1] == [mark[0]];
  }

  /** Marking yields nothing exactly when every line is empty. */
  lemma MarkedEmpty(mark: string, lines: seq<string>)
    ensures Marked(mark, lines) == [] <==> forall l :: l in lines ==> l == []
  {
    var r := Marked(mark, lines);
    if exists l :: l in lines && l != [] {
      var l :| l in lines && l != [];
      assert mark + l in r;
    }
  }
}
