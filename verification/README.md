# Chunked PDF-to-sentence ingestion, modelled in Dafny

The script `pdf-processing/preprocess_pdf.py` turns a PDF into a SQLite table
`pdf_text(id, page_number, sentence)`. It works in chunks of `chunk_size = 100`
pages. For each chunk start `0, 100, 200, …` below the page count, the module-level
loop calls `preprocess_pdf_chunk`. That function:

- creates the table if it is missing (`create_database`);
- returns early when the start page is past the last page;
- clamps the end page to the page count;
- walks the pages of the chunk in order;
- inserts one row per sentence that the sentence splitter finds in a page's
  text, tagged with the 1-based page number;
- inserts a single placeholder row `"[No text found on this page]"` for a
  page without text;
- commits once at the end of the chunk.

The model keeps these as pure functions over abstract inputs:

- **Pages** (`pages.dfy`): a document is a sequence of extraction results,
  `Absent` (the extractor returned nothing) or `Text(s)`.
  - Python truthiness of the page text is `HasText` (absent or empty text is
    falsy).
  - `pdf.pages[i]` follows Python list subscripting: `PageAt` counts a
    negative index from the end.
  - The sentence splitter is a function parameter `tok: string -> seq<string>`.
- **Store** (`store.dfy`): the database is either `NoTable` or
  `Table(rows)`, an append-only sequence of `Row(page, sentence)`.
  - `CreateTable` is `CREATE TABLE IF NOT EXISTS`.
  - `Commit` appends a chunk's rows in one step.
  - `SentencesOnPage` reads back, in order, the sentences recorded for one page
    number.
- **Chunk** (`chunk.dfy`): `preprocess_pdf_chunk`.
  - `RowsForRange` gives the rows of one pass over a page range.
  - `ProcessChunk` makes the three-way decision: skip, IndexError, or commit
    rows.
  - `PreprocessChunk` gives the resulting database.
- **Driver** (`driver.dfy`): the chunk loop.
  - `StartsFrom`/`ChunkStarts` is `range(0, total_pages, chunk_size)`.
  - `RunChunks` folds the chunk function over the starts. It stops with
    `Crashed` if a chunk raises.
  - `SinglePass` is an independent reference: the rows of one uninterrupted
    pass over a whole document, defined page by page from the last page
    backwards. The chunked run is proved equal to it.
- **Scenarios** (`scenarios.dfy`): concrete documents that pin down the edge
  cases.

What is proved:

- the chunk function never visits a page outside the clamped range, so every
  page number it records lies in `[start + 1, min(end, total)]`;
- a page's rows are exactly the splitter's output in order, or exactly the
  placeholder;
- rows come in non-decreasing page order, and earlier rows are never touched;
- the chunk starts tile `[0, total)` into `ceil(total / size)` disjoint chunks,
  and each page falls in exactly one chunk;
- after any number `k` of chunks, the database holds its old rows followed by
  one pass over the first `k * size` pages;
- a full run is therefore the same as a single pass over the whole document.

"Every page is represented" holds only when the splitter finds at least one
sentence in every non-empty text (`TokenizerCovers`). The scenario
`BlankPageGetsNoRow` shows a page that gets no row at all when this fails.

Behaviour of the code that the model keeps as written:

- A page whose non-empty text the splitter maps to no sentence, such as a
  page of blanks, gets no row, not even the placeholder: the placeholder is
  inserted only when the extracted text is falsy (`preprocess_pdf.py:37-44`).
- The code has no per-page exception handler and no commit retry; an
  exception from extraction, splitting or SQLite ends the run.
- A negative start is accepted:
  - `pdf.pages[page_number]` reads from the end of the list;
  - the row is tagged `page_number + 1`, which is zero or negative;
  - a start below minus the page count raises IndexError before any insert.

  `ProcessChunk` and `NegativeStart` model this. The driver only ever passes
  non-negative starts.

## Model

| member | source | states |
|---|---|---|
| Pages.PageAtWraps | pdf-processing/preprocess_pdf.py:35 | `pdf.pages[i]` for `-total <= i < total` is the page at `i` modulo the page count, so a negative index reads from the end |
| Pages.CoveredPageHasSentence | pdf-processing/preprocess_pdf.py:37-44 | if the splitter finds a sentence in every non-empty text, every page yields at least one sentence or the placeholder |
| Store.CreateTable | pdf-processing/preprocess_pdf.py:10-21 | after creation the table exists and holds exactly the rows it held before; an existing table is returned unchanged |
| Store.CreateTableIdempotent | pdf-processing/preprocess_pdf.py:14 | creating the table twice is the same as creating it once |
| Store.Commit | pdf-processing/preprocess_pdf.py:40-45 | a commit keeps every earlier row in place and appends exactly the chunk's rows after them |
| Store.SentencesOnPageAppend | pdf-processing/preprocess_pdf.py:40-45 | reading a page's sentences back from appended rows gives those of the old rows followed by those of the new rows |
| Store.SentencesOnOtherPages | pdf-processing/preprocess_pdf.py:40-44 | rows whose page numbers all lie in `[lo, hi]` record no sentence for a page outside that interval |
| Store.SentencesOnSinglePage | pdf-processing/preprocess_pdf.py:40-44 | rows that all carry page `n` read back, for page `n`, as their sentences in order |
| Store.AscendingConcat | pdf-processing/preprocess_pdf.py:34-44 | the rows of one page followed by ascending rows of later pages stay in non-decreasing page order |
| Chunk.Min | pdf-processing/preprocess_pdf.py:31 | the clamped end is one of its two arguments and exceeds neither |
| Chunk.TagSentencesContent | pdf-processing/preprocess_pdf.py:39-41 | the rows for a sentence list are one row per sentence, in order, each carrying the given page number |
| Chunk.TagSentencesReadBack | pdf-processing/preprocess_pdf.py:39-41 | reading back the page's sentences from its rows returns exactly the sentence list that was inserted |
| Chunk.RowsForPageContent | pdf-processing/preprocess_pdf.py:36-44 | a page with text yields exactly the splitter's sentences in order, tagged `page_number + 1`; a page without text yields exactly one placeholder row |
| Chunk.PageRowsSentences | pdf-processing/preprocess_pdf.py:36-44 | the sentences recorded for page `i + 1` are the page's sentences, or the placeholder |
| Chunk.RowsForRangeWithin | pdf-processing/preprocess_pdf.py:34-44 | every row of a pass over `[lo, hi)` carries a page number in `[lo + 1, hi]` |
| Chunk.RowsForRangeAscending | pdf-processing/preprocess_pdf.py:34-44 | the rows of a pass come in non-decreasing page order |
| Chunk.RowsForRangeStep | pdf-processing/preprocess_pdf.py:34-44 | the rows of `[lo, hi)` are page `lo`'s rows followed by those of `[lo + 1, hi)` |
| Chunk.RowsForRangeSplit | pdf-processing/preprocess_pdf.py:34-44 | splitting a page range at any point splits its rows at the same point |
| Chunk.ProcessChunk | pdf-processing/preprocess_pdf.py:27-44 | the chunk skips exactly when `start >= total`; it raises IndexError exactly when a non-empty clamped range starts below `-total`; an empty range commits no rows |
| Chunk.ChunkRowsBounded | pdf-processing/preprocess_pdf.py:28-44 | for `0 <= start < total` the chunk commits rows whose page numbers lie in `[start + 1, min(end, total)]`, within `[1, total]`, in non-decreasing order |
| Chunk.PreprocessChunk | pdf-processing/preprocess_pdf.py:24-45 | the table always exists afterwards; a skipped chunk leaves the rows unchanged; unless the chunk raises IndexError, the rows are the old rows followed by one pass over `[start, min(end, total))` |
| Chunk.PreprocessChunkKeepsRows | pdf-processing/preprocess_pdf.py:40-45 | whatever the chunk does, every earlier row stays in place |
| Chunk.ChunkWithoutCommit | pdf-processing/preprocess_pdf.py:25-35 | a chunk that skips or raises leaves the table created and the rows unchanged; an existing table is unchanged |
| Chunk.FirstPageSentences | pdf-processing/preprocess_pdf.py:34-44 | in a pass over `[lo, hi)` the first page's recorded sentences are its own |
| Chunk.LaterPageSentences | pdf-processing/preprocess_pdf.py:34-44 | in a pass over `[lo, hi)` any later page's recorded sentences are its own |
| Chunk.RangePageSentences | pdf-processing/preprocess_pdf.py:34-44 | in a pass over `[lo, hi)` each page `p` in range records exactly its sentences or the placeholder under page number `p + 1` |
| Chunk.ChunkPageSentences | pdf-processing/preprocess_pdf.py:31-44 | for each page of a committed chunk, a page with text records exactly the splitter's sentences and an empty page exactly the placeholder |
| Chunk.RangeCoversEveryPage | pdf-processing/preprocess_pdf.py:37-44 | with a splitter that always finds a sentence, every page of the range is represented by at least one row |
| Chunk.RangeRowCount | pdf-processing/preprocess_pdf.py:37-44 | with such a splitter, a pass over `hi - lo` pages produces at least `hi - lo` rows |
| Driver.StartsFrom | pdf-processing/preprocess_pdf.py:56 | every start produced by `range(from, total, size)` lies in `[from, total)` |
| Driver.StartsFromShape | pdf-processing/preprocess_pdf.py:56 | the `k`-th start is `from + k * size`, below `total`, and one more step reaches `total` |
| Driver.StartsFromStep | pdf-processing/preprocess_pdf.py:56 | the first start is `from` and the rest are the starts from `from + size` |
| Driver.ChunkStartAt | pdf-processing/preprocess_pdf.py:56 | the `k`-th chunk starts at `k * size < total` |
| Driver.ChunkStartsReach | pdf-processing/preprocess_pdf.py:56 | the chunks together reach past the last page |
| Driver.ChunksTile | pdf-processing/preprocess_pdf.py:53-58 | the first chunk starts at page 0, each clamped chunk ends where the next starts, the last ends at `total`, and no chunk is empty |
| Driver.PageInOneChunk | pdf-processing/preprocess_pdf.py:53-58 | every page `p` lies in chunk `p / size` and in no other chunk |
| Driver.OneChunkWhenSizeCoversDocument | pdf-processing/preprocess_pdf.py:53-58 | a non-empty document no longer than the chunk size is processed in one chunk |
| Driver.ChunkCount | pdf-processing/preprocess_pdf.py:53-58 | there are `ceil(total / size)` chunks |
| Driver.RunChunksStep | pdf-processing/preprocess_pdf.py:56-58 | one loop iteration commits the rows of its clamped chunk and continues with the remaining starts |
| Driver.RunChunksCons | pdf-processing/preprocess_pdf.py:56-58 | if the remaining chunks complete the pass over `[from, hi)` after the first chunk, the whole loop does |
| Driver.RunRowsJoin | pdf-processing/preprocess_pdf.py:56-58 | rows committed for `[from, mid)` and then `[mid, hi)` are the rows of `[from, hi)` |
| Driver.RunPrefixFrom | pdf-processing/preprocess_pdf.py:54-58 | the first `k` chunks from `from` append exactly one pass over the pages they cover |
| Driver.RunPrefix | pdf-processing/preprocess_pdf.py:54-58 | after the first `k` chunks the database holds its old rows followed by one pass over the first `min(k * size, total)` pages |
| Driver.SinglePassIsRange | pdf-processing/preprocess_pdf.py:34-44 | the reference single pass over the first `n` pages is exactly the chunk function's loop over the page range `[0, n)` |
| Driver.RunIsSinglePass | pdf-processing/preprocess_pdf.py:54-58 | for a document with pages, running every chunk appends exactly the rows of the reference single pass over the whole document |
| Driver.RunWithoutPages | pdf-processing/preprocess_pdf.py:54-56 | a document without pages leaves the database as it was: the loop body never runs, so not even the table is created |
| Driver.RunRowsPerPage | pdf-processing/preprocess_pdf.py:34-58 | after a run the old rows are intact and the new rows carry page numbers in `[1, total]`, in order, each page recording exactly its own sentences or the placeholder |
| Driver.RunCoversEveryPage | pdf-processing/preprocess_pdf.py:37-58 | with a splitter that always finds a sentence, a run over `N` pages adds at least `N` rows and represents every page |
| Scenarios.FarmPageRows | pdf-processing/preprocess_pdf.py:36-44 | the wheat page yields its two sentences, the empty page the placeholder, the rice page its one sentence |
| Scenarios.FarmChunks | pdf-processing/preprocess_pdf.py:53-58 | with chunks of two pages over three pages, the chunks start at 0 and 2 and commit three rows and one row |
| Scenarios.FarmRun | pdf-processing/preprocess_pdf.py:53-58 | the run over the three-page document leaves exactly four rows in page order |
| Scenarios.BlankPageGetsNoRow | pdf-processing/preprocess_pdf.py:37-44 | a non-empty page in which the splitter finds no sentence produces no row, placeholder included |
| Scenarios.NegativeStart | pdf-processing/preprocess_pdf.py:34-44 | start `-1` records the last page as page 0, then the first page; start `-3` on two pages raises before any insert but leaves the table created |
| Scenarios.ResumePastEnd | pdf-processing/preprocess_pdf.py:25-30 | a chunk starting past the last page creates the table and adds no row |

## Left out

- PDF parsing (`pdfplumber`) and sentence splitting (`nltk.sent_tokenize`) are
  not modelled. They are parameters: a document of extraction results and a
  splitter function.
- The `nltk.download('punkt')` call, the `print` progress messages and the Colab
  `files.download` of the database file are I/O with no effect on the rows.
- SQLite mechanics are not modelled: the connection, the AUTOINCREMENT `id`
  column, durability, and the connection left open on the early-return path.
  The table is a sequence of `(page_number, sentence)` rows, and a commit
  appends a chunk's rows in one step.
- Uncommitted transactions are not modelled. The one exception the model
  covers, a start below minus the page count, is raised before the first
  insert, so nothing is pending when it happens.
- Other exceptions from the extractor, the splitter or SQLite are not
  modelled. The code has no handler for them.
- Driver.Run: the chunk size must be positive. `range` raises ValueError for a
  zero step, and the script fixes the size at 100.
- The default arguments of `preprocess_pdf_chunk` (`db_name`, `start_page=0`,
  `end_page=100`, `preprocess_pdf.py:24`) are not modelled: the only caller
  passes every argument (`preprocess_pdf.py:58`), and the database file name
  has no counterpart in a model with a single store.
- `app.py` (the speech and chat front end) is not part of this model.
