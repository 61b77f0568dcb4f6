# html_to_txt, modelled in Dafny

The bot in `app.py` takes an uploaded `.html` document and sends back three
files. It builds them with `html_to_txt`, which reads the parsed document and
returns three things:

- the text: one fragment per `p`, `a`, `h1`..`h6` and `li` element, joined with
  newlines. An anchor with a non-empty `href` gets ` (Link: href)` appended to its
  fragment.
- the URL list: the `href` of each such anchor.
- the video list: `name:link` pairs taken from table rows that have at least
  two cells.

Both upload handlers wrap `html_to_txt` with the same rules:

- a case-sensitive `.html` suffix gate;
- a "no valid text" rejection when the text is blank after `strip()`.

`handle_docs` also derives its output paths with `str.replace`.

The project models this core over an abstract element tree, the view
BeautifulSoup gives the extractor after parsing.

- `wrappers.dfy`: `Option` and `Result`.
- `seqs.dfy`: `Map`, `Flatten` and an order-preserving `Filter`.
- `pystr.dfy`: the Python string operations the code relies on:
  - `str.strip()` with Python's full `isspace` table;
  - `join`, `split`, `endswith`, `count` and `replace`.
- `tree.dfy`: the parsed document.
  - Nodes and their pre-order `descendants`.
  - `find_all` and `find`.
  - The two forms of `get_text`: plain, and `strip=True`, which strips each text
    node and drops the empty ones.
- `extract.dfy`: `html_to_txt`, in two forms:
  - reference functions: the fragments, URLs and a fold over per-row outcomes;
  - methods with loops shaped like the source, proved equal to the functions.
- `properties.dfy`: what the three outputs satisfy.
- `upload.dfy`: the handlers' pure decisions, as a `Reply` datatype.
- `scenarios.dfy`: small concrete documents worked through the model.

A missing `href` on the first anchor of a row's second cell makes
`cols[1].find('a')['href']` raise `KeyError`. In the model, the extraction
then returns `Failure(KeyError("href"))`. The handlers do not catch this, so
the model's `Handle` returns `Raised` for it.

Behaviour of the code that is easy to miss:

- **Stripped text.** An element's text is built by `get_text(strip=True)`. This
  strips each text node separately and glues the non-empty ones with no
  separator. It does not strip one concatenated string, so `<p>a <b>b</b></p>`
  gives `ab` where `get_text().strip()` gives `a b` (`Scenarios.StripPerNode`).
- **Rows without a link.** A row whose second cell's first anchor has no
  `href` attribute raises `KeyError`; it is not skipped.
- **Anchors inside tables.** An anchor in a table cell is also a qualifying
  element. It therefore adds a fragment and a URL as well as the video entry
  (`Properties.LinkedAnchorCollected`).
- **Nested tables.** Every `find_all` searches all descendants, so a row of a
  table nested in another table is visited once per enclosing table. Its entry
  is listed that many times.

## Model

| member | source | states |
|---|---|---|
| Extract.HtmlToTxt | app.py:18-46 | The procedure — the tag loop, then the table loop — returns exactly the reference extraction: text, URLs and videos, or the first `KeyError` |
| Extract.ScanTags | app.py:26-32 | The tag loop produces one fragment per element, in order. It collects the `href` of exactly the anchors whose `href` is present and non-empty |
| Extract.ScanTables | app.py:35-44 | The loop over tables yields the entries of every row of every table in order, or stops at the first raising row |
| Extract.ScanRows | app.py:37-44 | The loop over one table's rows yields the row entries in order, or the first row error |
| Extract.RowVideoSpec | app.py:39-44 | A row raises iff its second cell's first anchor lacks `href`, and the error is `KeyError("href")`. It yields nothing iff it has fewer than two cells, no anchor there, or an empty `href`. Otherwise it yields the first cell's text stripped, a colon, and that anchor's non-empty `href` |
| Extract.CollectConcat | app.py:36-44 | Scanning two row lists in sequence is the first scan followed by the second, with the first failure winning |
| Extract.FailureStops | app.py:36-44 | Once the rows of the first tables raise, later tables cannot change the outcome |
| Properties.FragmentCount | app.py:26-32 | The number of text fragments equals the number of qualifying elements in the tree, empty ones included |
| Properties.NoQualifyingElements | app.py:18-46 | A document with no qualifying element gives empty text, no URLs and no videos, and never raises |
| Properties.NoAnchorsNoVideos | app.py:35-44 | A document without anchors has an empty video list and its row scan never raises |
| Extract.RowWithoutAnchors | app.py:39-44 | A row with no anchor below it adds nothing and cannot raise |
| Extract.VisitedRowsBelow | app.py:35-37 | Every row the scan visits lies inside the document |
| Properties.UrlsAreLinkedAnchors | app.py:26-30 | The URLs are the `href`s of the anchors with a non-empty `href`, in document order, and are never more than the fragments |
| Properties.FragmentShape | app.py:27-32 | A linked anchor's fragment is its stripped text followed by ` (Link: href)`, with nothing in between; every other fragment is the stripped text alone |
| Properties.UrlsAnnotatedInText | app.py:26-46 | Every collected URL appears in the joined text as ` (Link: url)` |
| Properties.LinkedAnchorCollected | app.py:26-31 | Every anchor with a non-empty `href` anywhere in the document, table cells included, has its URL collected and annotated in the text |
| Properties.FragmentBlank | app.py:27-32 | A fragment is blank iff its element is not a linked anchor and its stripped text is empty |
| Properties.NoValidTextIff | app.py:70 | `not text.strip()` holds iff every qualifying element is an unlinked one with empty stripped text |
| Properties.TextSplitsIntoFragments | app.py:46 | Splitting the text on newlines gives back the fragments when there is at least one and none contains a newline |
| Properties.VideosRaiseIff | app.py:38-42 | The row scan raises iff, in some visited row, the first anchor of the second cell has no `href` |
| Properties.VideosAreRowEntries | app.py:38-44 | A successful scan lists exactly the row entries in row order, at most one per row |
| Properties.GatherEntries | app.py:38-44 | The fold over row outcomes keeps exactly the entries, in order |
| Properties.NestedTableRowsRevisited | app.py:35-37 | A row of a table nested in another table is also among the outer table's rows |
| Tree.FindAll | app.py:26 | `find_all` returns only descendants with a matching tag, and returns every such descendant |
| Tree.Find | app.py:42 | `find` returns `None` iff no descendant has the tag; otherwise it returns the first descendant in document order with that tag |
| Tree.FindAllCount | app.py:26 | `find_all` returns one entry per matching element, counted subtree by subtree |
| Tree.DescendantsTransitive | app.py:35-37 | A descendant of a descendant is a descendant |
| Tree.StrippedStrings | app.py:27 | The pieces `get_text(strip=True)` glues are non-empty and unpadded, and there are none iff every text node is blank |
| Tree.StrippedStringsPieces | app.py:27 | Those pieces are exactly the text nodes each stripped on its own, in order, with the empty results dropped |
| Tree.GetTextStrippedUnpadded | app.py:27 | An element's stripped text never starts or ends with whitespace, so it is blank iff it is empty |
| Tree.StrippedEmptyIffBlank | app.py:27 | `get_text(strip=True)` is empty iff `get_text().strip()` is |
| PyStr.Strip | app.py:41 | `strip()` returns an unpadded string that sits in the input with only whitespace around it. It is empty iff the input is all whitespace |
| PyStr.StripUnique | app.py:41 | Stripping whitespace-padded unpadded text gives back exactly that text |
| PyStr.StripIdempotent | app.py:41 | Stripping twice is stripping once |
| PyStr.Split | app.py:46 | `split` on one character never returns an empty list and no piece contains the separator |
| PyStr.JoinSplit | app.py:46 | Joining the pieces of a split restores the string |
| PyStr.SplitJoin | app.py:46 | Splitting a join restores the parts when at least one part exists and none contains the separator |
| PyStr.JoinAllSpace | app.py:46 | A join with a whitespace separator is blank iff every part is |
| PyStr.JoinHasPart | app.py:78 | Every part of a join occurs in the joined string |
| PyStr.Replace | app.py:61-63 | `replace` changes the length by `len(repl) - len(pat)` per occurrence that `count` finds, and leaves a string without occurrences unchanged |
| PyStr.ReplaceAtFirst | app.py:61-63 | `replace` keeps everything before the first occurrence, turns that occurrence into `repl`, and replaces the rest of the string in turn |
| PyStr.ReplaceNone | app.py:61-63 | A string in which the pattern does not occur is returned unchanged |
| PyStr.CountPositive | app.py:61-63 | The left-to-right count is positive iff the pattern occurs |
| PyStr.ReplaceTrailing | app.py:61-63 | A border-free pattern that occurs only at the end is replaced there and nowhere else |
| Upload.GateRejectsIff | app.py:55-57 | An upload is turned away before extraction iff its name does not end in `.html` |
| Upload.GateExamples | app.py:101-103 | The suffix test is case-sensitive: `page.html` passes; `page.HTML` and `notes.pdf` do not |
| Upload.RejectsEmptyIff | app.py:68-73 | A `.html` upload is rejected as empty iff extraction succeeds and every qualifying element is unlinked with empty stripped text |
| Upload.DeliveredContents | app.py:75-80 | A delivered text file is not blank and is the extracted text. The URL file contains every collected URL |
| Upload.OutputPathsSingleSuffix | app.py:60-63 | For a name with one `.html` at its end, each output path is the download path with the suffix swapped |
| Upload.OutputPathsReplaceEvery | app.py:61 | Every occurrence of `.html` is replaced, so `a.html.html` becomes `a.txt.txt` |
| Upload.OutputPathsDistinct | app.py:60-63 | For a name that passes the gate, the upload path and the three output paths are four different paths |
| Upload.DownloadPathInfix | app.py:60 | The `downloads/` prefix adds no `.html` occurrence |
| Scenarios.ParagraphAndLink | app.py:18-46 | `<p>Hello</p><a href="http://x.com">Site</a>` gives `Hello\nSite (Link: http://x.com)`, one URL and no videos |
| Scenarios.VideoRowEntry | app.py:39-44 | A row with a name cell ` Intro ` and a link cell whose anchor has `href="v.mp4"` yields `Intro:v.mp4` |
| Scenarios.VideoRowRaises | app.py:42 | The same row with an anchor that has no `href` raises `KeyError("href")` |
| Scenarios.VideoRowEmptyLink | app.py:42-43 | The same row with `href=""` yields no entry |
| Scenarios.FirstRowRaises | app.py:36-44 | A raising first row aborts the scan whatever rows follow |
| Scenarios.StripPerNode | app.py:27 | For any two non-space characters `x` and `y`, in `<p>x <b>y</b></p>` `get_text(strip=True)` gives `xy` while `get_text().strip()` gives `x y` |
| Scenarios.SingleTextElement | app.py:27 | An element whose only child is one non-empty unpadded text node reads as that text in both forms of `get_text` |
| Scenarios.VideoScanStops | app.py:38-42 | A row whose link anchor has no `href`, placed first, makes the whole scan raise `KeyError("href")` |
| Scenarios.NestedTableRowVisitedTwice | app.py:35-37 | In a table nested in a table, the inner row is visited twice |
| Scenarios.NestedTableListsVideoTwice | app.py:35-44 | The nested row's entry appears twice in the video list |

## Left out

- Parsing (app.py:20): the model starts from the tree that `html.parser` builds. Its text nodes are the strings `get_text` reads. Comments and other strings it skips are simply absent from the tree.
- File I/O (app.py:19, 65-66, 75-92, 117-131): reading, UTF-8 decoding, writing, sending and deleting files. The model states what each file would contain.
- The paths of `handle_html_file`, the pyrogram document handler (app.py:113-115), built with `os.path.splitext`. The download location is chosen by the client library, so only its gate and empty-text rejection are modelled; they match `handle_docs`.
- Telegram transport, bot set-up and the `/txt` prompt (app.py:9-15, 49-53, 95-97, 141-143). These are network calls with no logic of their own.
- The `/start` progress animation (app.py:134-139). It is timed message edits with no bearing on extraction.
- PyStr.Replace: requires a non-empty pattern. The code only calls it with `.html`, and Python's empty-pattern rule does not arise.
- PyStr.Split: modelled for a one-character separator only, the newline the text is joined with.
- Attribute values are single strings. BeautifulSoup's multi-valued attributes such as `class` play no part in the code, which reads only `href`.
- The `name:link` entry format is ambiguous when a name contains `:`. The model shows the format but proves nothing about parsing it back.
