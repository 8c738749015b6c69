# GK version compare: the diff-to-table pipeline

GK_Version_compare compares the XML configuration files of two versions of
GK Software. Two folders, or two lists of uploaded files, are paired by
file name without regard to case. Each pair of files is diffed line by
line, and the diff becomes a side-by-side report of the old and the new
version. A summary is produced as well; it comes either from a fixed
sentence or from a local language model that is given a snippet of the
changed lines.

The project models the pipeline that lies between the diff and the report,
in three variants:

- **The live page (`app.py`).** Every removed or added line is kept, with
  two lines of context on each side (`Windower`). The kept lines become
  two-column table rows, once for the screen and once for the PDF
  (`Projector`). The summary is taken over the kept lines (`Summary.WindowSummary`).
  Uploads are paired by lower-cased name (`FileMatching.MatchUploads`).
- **The paginated PDF batch report (`gk_compare_gui.py`).** The diff is
  reduced to four parallel lists that hold the changed lines only
  (`Columns`). These lists are cut into tables of at most 40 rows, each
  with its own header and text-colour directives (`Paginator`). The summary
  input is rebuilt from the old and new text lists alone; the two type
  lists only colour the tables (`Summary.DiffText`).
- **The Word summary report (`compare.py`).** The summary is taken over a
  unified diff. A blank diff is reported as "no differences"
  (`Summary.CompareSummary`). Folders are paired by lower-cased `.xml`
  name (`FileMatching.MatchFolders`).

The `difflib` algorithms are not modelled. A diff is any sequence of
strings, read by its two-character codes: "  " (in both files), "- " (old
only), "+ " (new only) and "? " (intraline hint). The module `Ndiff`
defines them. The Python string operations the code relies on are defined
in `PyText` with CPython's semantics:
- slices clamp to the length;
- `rstrip`/`strip` use the full `isspace` set;
- `splitlines` breaks on its own set of separators and treats "\r\n" as one break;
- `join` behaves as in CPython;
- `lower` lower-cases the ASCII capitals only (see "Left out").

Methods model the source's loops and state their result through a
specification function; lemmas state what the pipeline promises about those
functions.

## Model

| member | source | states |
|---|---|---|
| Windower.IncludedLines | app.py:81-87 | The retained indices are strictly ascending. Every removed or added line is retained. An index is retained exactly when it is below `len(diff)` and within `context` lines of a change. No changes gives no lines; with `context = 0` the result is exactly the change indices. |
| Windower.Sorted | app.py:87 | `sorted` of a set of line numbers below `n` is strictly ascending and has exactly the set's members. |
| Windower.Range | app.py:86 | `range(lo, hi)` as a set holds exactly the naturals in `[lo, hi)`; it is empty when `hi <= lo`. |
| Windower.WindowsAreNearChanges | app.py:83-86 | The union of the clamped windows `[max(i - c, 0), min(i + c + 1, len))` around the change positions is exactly the set of lines within `c` of a change. |
| Windower.DefaultWindowExample | app.py:76-87 | With the page's `context = 2`, a seven-line diff whose only change is line 4 keeps exactly lines 2 to 6; lines 0 and 1 are too far from the change. |
| Windower.ChangesAloneWithoutContext | app.py:81-87 | Without context, an ascending list of the lines near a change is the list of change indices itself. |
| Ndiff.ChangeIndices | app.py:81 | The change indices are strictly ascending, and `i` is among them exactly when `diff[i]` starts with "- " or "+ ". |
| Ndiff.Content | app.py:108 | `line[2:]` is what follows the two-character code, and is empty for a line shorter than two characters. |
| Ndiff.SignedIsChange | app.py:130 | On a well-formed `ndiff` line, starting with '+' or '-' is the same as being a removed or added line. |
| Ndiff.StrictlyIncreasingUnique | app.py:87 | Two strictly ascending index lists with the same members are equal, so the sorted list is determined by its set. |
| Projector.BuildTable | app.py:93-163 | The on-screen table (lines 93-114) and the PDF table (lines 149-163) come from the same loop with two row mappings. Each is the header `["OLD VERSION", "NEW VERSION"]` followed by exactly one row per retained index, in the order of the retained indices. |
| Projector.ScreenRowIsMarkedColumnPair | app.py:97-109 | A removed line is the red cell "❌ " plus its content beside a black empty cell; an added line is the mirror, with a green "✅ " cell. This holds whatever the content starts with. With the marks taken off, a screen row is the line's column pair: old only, new only, or the same text in both columns. For a context line this needs its text not to start with a mark itself. |
| Projector.RowOf | app.py:97-161 | The row of one retained line, for the screen (lines 97-109) or the PDF (lines 153-161). Its colours give back the line's origin, and a PDF row carries exactly the line's column pair, without marks. |
| Projector.RowColoursGiveOrigin | app.py:97-161 | The colours of a row tell where its line came from, on screen and in the PDF. The old cell is red exactly for removed lines. The new cell is green exactly for added lines. Any other line is gray in both columns with its text after the code. |
| Projector.HintRowIsGray | app.py:107-109 | An intraline hint "? " inside a window is shown in gray in both columns with its text after the code. |
| Columns.CompareFiles | gk_compare_gui.py:38-54 | The four lists have one entry per removed or added diff line, so they have equal length. Entry `k` is the entry of the `k`-th change line in diff order; unchanged lines and hints are skipped. |
| Columns.EntryOf | gk_compare_gui.py:41-52 | A removed line gives (content, "", removed, unchanged) and an added line gives ("", content, unchanged, added). The content is `line[2:]` with exactly its trailing whitespace removed. |
| Columns.EntriesFollowChanges | gk_compare_gui.py:40-53 | The entries correspond one to one, in order, with the change lines of the diff. |
| Columns.EntryIsStrippedColumnPair | gk_compare_gui.py:42-52 | An entry is the live page's column pair of the line with trailing whitespace stripped. Its type tags name the line's origin. |
| Paginator.BuildTablePages | gk_compare_gui.py:80-111 | The loop produces the tables of the chunks at `0, max_rows, ...`. There are `ceil(n / max_rows)` of them, every one opens with the header row, and their data rows read in order are `zip(old_lines, new_lines)`. |
| Paginator.ChunkTable | gk_compare_gui.py:86-109 | One pass of the loop body builds the table of the chunk at `i`: the header, the zipped chunk rows and the chunk's colour directives. |
| Paginator.StyleChunk | gk_compare_gui.py:103-107 | The inner loop over the zipped type pairs, numbered from 1, emits the chunk's colour directives. |
| Paginator.ColoursMeaning | gk_compare_gui.py:103-107 | Row `k + 1` has a red directive at column 0 exactly when old type `k` is removed, and a green one at column 1 exactly when new type `k` is added. Every directive sits on a data row, never on the header. |
| Paginator.DirectivesMeaning | gk_compare_gui.py:104-107 | One type pair yields a red old-cell directive exactly when removed and a green new-cell directive exactly when added, both on its own row. |
| Paginator.Zip | gk_compare_gui.py:91 | `zip` pairs position by position and stops at the shorter list. |
| Paginator.PageCount | gk_compare_gui.py:85 | `range(0, n, max_rows)` yields `ceil(n / max_rows)` tables, and none when `n = 0`. |
| Paginator.HeadersEverywhere | gk_compare_gui.py:83-91 | Every table starts with the header row `('OLD VERSION', 'NEW VERSION')`. |
| Paginator.RowsPartition | gk_compare_gui.py:85-91 | The data rows of the tables from chunk start `i` on, read one table after the other, are `zip(old_lines[i:], new_lines[i:])`. |
| Paginator.FullPages | gk_compare_gui.py:85-91 | When the new list is at least as long as the old one, every table but the last holds exactly `max_rows` data rows. |
| Paginator.PageIsChunk | gk_compare_gui.py:85-91 | Table `k` is the table of the chunk that starts at the `k`-th value of the range, which is below `len(old_lines)`. |
| Paginator.ChunkStartIsMultiple | gk_compare_gui.py:85 | The `k`-th value of `range(i, n, max_rows)` is `i + k * max_rows`. |
| Paginator.ChunkShape | gk_compare_gui.py:86-107 | The table of a chunk of four equal-length lists has one data row per position of the chunk. Row `r` holds position `i + r - 1` and is coloured exactly as that position's types say. |
| Paginator.ChunkRows | gk_compare_gui.py:86-91 | A chunk's table has `1 + min(max_rows, n - i)` rows, and row `r` is the pair at position `i + r - 1`. |
| Paginator.ChunkCells | gk_compare_gui.py:88-107 | The colour directives of a chunk mark row `r` red or green exactly by the types at position `i + r - 1`, and mark no other row. |
| Paginator.EightyFiveLines | gk_compare_gui.py:80-111 | With the report's `max_rows=40` (line 144), 85 changed lines give three tables, each under its header, with 40, 40 and 5 data rows. |
| Paginator.PageColours | gk_compare_gui.py:85-107 | Table `k` of four equal-length lists has the layout of the chunk at `k * max_rows`: its rows, and red and green directives that follow the types. |
| Summary.Filter | compare.py:41 | The kept lines are exactly the lines that start with '+' or '-'. |
| Summary.FilterAppend | compare.py:41 | Filtering keeps the original order: the filter of a concatenation is the concatenation of the filters. |
| Summary.FilterKeepsSigned | compare.py:41 | A list whose every line is signed is kept whole. |
| Summary.FilterEmpty | compare.py:41 | Nothing is kept exactly when no line starts with '+' or '-'. |
| Summary.Snippet | compare.py:42 | The snippet is the first `min(4000, len)` characters of the newline-joined signed lines. It is at most 4000 characters long and empty exactly when no line is signed. |
| Summary.SummarizeDiff | compare.py:39-45 | The result is "No significant changes detected in {filename}." exactly when no line of the text is signed; otherwise the model is given the snippet, 1 to 4000 characters long. `summarize_diff` in gk_compare_gui.py (lines 59-64) is the same up to the model call. |
| Summary.Gather | app.py:130 | `[diff[i] for i in included_lines]` has one line per retained index, in order. |
| Summary.WindowSummary | app.py:129-137 | The live page shows "No significant changes detected." exactly when no retained line is signed. Otherwise it shows the snippet of the retained lines, at most 4000 characters. |
| Summary.FilterGather | app.py:130 | Gathering an ascending index list that holds every signed line below `n` keeps the signed lines of `diff[:n]`, in order. |
| Summary.WindowKeepsSignedLines | app.py:130 | On an `ndiff` list, the retained lines have the same signed lines as the whole diff, so they have the same snippet. |
| Summary.WindowSnippetIsWholeSnippet | app.py:130-137 | Context lines never reach the snippet. The live summary over the windower's lines equals the summary over the change lines alone, and the snippet equals the snippet of the whole diff. |
| Summary.CompareSummary | compare.py:79-84 | A blank or whitespace-only diff text gives "No differences detected in {name}." and the model is not called. A non-blank text with no signed line gives the "No significant changes" sentence. The model is called exactly when some line is signed. |
| Summary.BlankTextHasNoSignedLine | compare.py:79-81 | No line of a whitespace-only text starts with '+' or '-'. |
| Summary.Marked | gk_compare_gui.py:135 | `[f"{mark}{l}" for l in lines if l]` holds the marked form of every non-empty line and nothing else, and is no longer than the lines. |
| Summary.MarkedSingle | gk_compare_gui.py:135 | One line gives its marked form when it is non-empty and nothing when it is empty. |
| Summary.MarkedAppend | gk_compare_gui.py:135 | Marking a concatenation gives the concatenation of the marked parts. With `MarkedSingle`, this fixes the result's order and multiplicity: one marked line per non-empty line, in the lines' order. |
| Summary.DiffText | gk_compare_gui.py:135 | The summary input is a lone newline when every entry is empty. It opens with "- " when some old entry is non-empty, and with "\n+ " when only new entries are non-empty. |
| Summary.MarkedEmpty | gk_compare_gui.py:135 | The marked list is empty exactly when every line is empty. |
| Summary.DiffTextSignedLines | gk_compare_gui.py:135-136 | The signed lines the summariser finds in the rebuilt diff text are the "- " lines of the old entries followed by the "+ " lines of the new entries. |
| Summary.NoChangesIffAllEntriesEmpty | gk_compare_gui.py:135-136 | The batch report gets the "No significant changes" sentence exactly when every old and new entry is empty, whatever characters the entries hold. |
| FileMatching.KeyMap | compare.py:61 | A key is in the dictionary exactly when some kept name lower-cases to it. The batch scripts keep names ending in ".xml" once lower-cased. |
| FileMatching.KeyMapLastWins | compare.py:61 | Each key maps back to an original-case name that lower-cases to it: the last such name in the listing. |
| FileMatching.CommonKeys | compare.py:63 | The common set is exactly the keys present on both sides. |
| FileMatching.Pairs | compare.py:72-74 | Each common key pairs the old side's and the new side's original names. |
| FileMatching.SharedKey | compare.py:63-65 | The common set is non-empty exactly when some kept old name and some kept new name are equal once lower-cased. |
| FileMatching.MatchFolders | compare.py:61-66 | "❌ No matching XML files found in both folders." is the outcome exactly when no two `.xml` names match up to case. Otherwise the pairs are the common keys with their names. gk_compare_gui.py (lines 116-121) pairs its folders in the same way and prints the same message. |
| FileMatching.Match | compare.py:63-66 | With the message given, the common keys either produce that message alone or produce the non-empty pairing. |
| FileMatching.MatchUploads | app.py:62-68 | Nothing happens until both upload lists are non-empty. Then "❌ No matching XML filenames found." appears exactly when no names match up to case; otherwise the common keys are paired, each with the last upload on either side that carries it. Names without a partner, and names shadowed by a later upload with the same key, are never compared. |
| FileMatching.PairedNamesAgree | compare.py:72-74 | A compared pair names an old and a new file whose names are both equal to the key once lower-cased. In the batch scripts both end in ".xml" once lower-cased; an original name may end in ".XML". |
| PyText.Drop | app.py:108 | `s[lo:]` is empty past the end, and otherwise holds the characters from `lo` on. |
| PyText.Slice | gk_compare_gui.py:86-89 | `s[lo:hi]` clamps both bounds to the length. |
| PyText.Take | compare.py:42 | `s[:n]` is the first `min(n, len(s))` characters. |
| PyText.RStrip | gk_compare_gui.py:42 | `rstrip()` drops exactly the trailing whitespace: a prefix that does not end in whitespace, followed only by whitespace. |
| PyText.LStrip | compare.py:79 | `lstrip()` drops exactly the leading whitespace: what is left is a suffix that does not start with whitespace, and only whitespace precedes it. |
| PyText.Strip | compare.py:79 | `strip()` is empty exactly when the text is whitespace only. |
| PyText.SplitLines | compare.py:41 | `splitlines()` yields lines free of line breaks. |
| PyText.Join | compare.py:42 | `sep.join(parts)` is empty for no parts, is the part itself for one part, and otherwise starts with the first part. |
| PyText.Lower | compare.py:61 | `lower()` keeps the length and maps each character. |
| PyText.LowerChar | compare.py:61 | An ASCII capital becomes its own small letter (code point plus 32); other characters are unchanged. |
| PyText.SplitJoin | gk_compare_gui.py:135 | Splitting the newline-join of non-empty, break-free lines gives the lines back. |
| PyText.SplitJoinThen | gk_compare_gui.py:135 | Splitting `"\n".join(parts) + "\n" + t` gives the parts, then the lines of `t`. |
| PyText.SplitLinesOfSpace | compare.py:79-81 | Every line of a whitespace-only text is whitespace only. |

## Left out

- The `difflib.ndiff` and `difflib.unified_diff` algorithms (app.py:80, gk_compare_gui.py:37, compare.py:33) are not modelled: their output is taken as a given sequence of lines. In `compare.py` that sequence is the unified diff text.
- Reading files, decoding uploads, `os.listdir`, `os.makedirs` and the fixed paths are I/O. Listings and uploads become sequences of names, and the contents of files are not modelled.
- The Streamlit page is not modelled: widgets, the "Found N files" message, the GPT checkbox and the model-loaded gating, the HTML assembly and the download buttons. Each table row is modelled as its cells' texts and colours, not as HTML or `Paragraph` markup. The source places the diff text in that markup unescaped (app.py:111-113, 154-161). The browser and reportlab therefore read any tags in an XML line as markup, not as text, and the model does not capture this: its cells carry the raw text.
- The model download over HTTP and its floating-point progress bar are left out, as is GPT4All loading and generation. The prompt wording, `max_tokens` and the `.strip()` of the response are left out with them. A summary is modelled as either its fixed sentence or the snippet the model would be given.
- reportlab and python-docx objects are left out: `SimpleDocTemplate`, `build`, `Document` and `save`. So are the fixed `TableStyle` commands shared by every table (grid, header background, fonts, padding). Only the per-cell `TEXTCOLOR` directives of `build_table_pages` are modelled.
- The iteration order of `common_files` is left out, since it is a Python set. The pairing is modelled as a map from key to the pair of names.
- PyText.Lower, PyText.LowerChar: only ASCII capitals are lower-cased; Python's full Unicode case mapping is not modelled.
- Paginator.BuildTablePages: requires `max_rows >= 1`, because `range` with a step of 0 raises `ValueError` in the source.
- Paginator.FullPages: assumes the new list is at least as long as the old one. `compare_files` guarantees this, since its four lists have equal length.
- Paginator.PageColours: assumes the four lists have equal length, as `compare_files` returns them.
- Summary.DiffTextSignedLines: assumes no entry contains a character that `splitlines` treats as a line break. An `rstrip`ped line read by `readlines` can still hold such a character (a form feed, for example), and then the summariser would see it split further.
