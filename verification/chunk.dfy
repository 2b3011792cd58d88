/**
 `preprocess_pdf_chunk`: ingest the pages [start_page, end_page) of a document,
 clamped to its page count, and commit their rows in one transaction.
 */
module Chunk {
  import opened Pages
  import opened Store

  /** Python's `min` on two integers. */
  function Min(a: int, b: int): (m: int)
    ensures m <= a && m <= b
    ensures m == a || m == b
  {
    if a <= b then a else b
  }

  /** One row per sentence, in order, each on page `page`: the inner
      `for sentence in sentences` loop. */
  function TagSentences(page: int, ss: seq<string>): seq<Row>
    decreases |ss|
  {
    if |ss| == 0 then [] else [Row(page, ss[0])] + TagSentences(page, ss[1..])
  }

  /** Tagging keeps the sentences, in order, and puts every row on `page`. */
  lemma {:induction false} TagSentencesContent(page: int, ss: seq<string>)
    ensures |TagSentences(page, ss)| == |ss|
    ensures forall k :: 0 <= k < |ss| ==> TagSentences(page, ss)[k] == Row(page, ss[k])
    ensures PagesWithin(TagSentences(page, ss), page, page)
    decreases |ss|
  {
    if |ss| > 0 {
      TagSentencesContent(page, ss[1..]);
      var r := TagSentences(page, ss);
      forall k | 1 <= k < |ss|
        ensures r[k] == Row(page, ss[k])
      {
        assert r[k] == TagSentences(page, ss[1..])[k - 1];
      }
    }
  }

  /** Reading page `page` back from tagged rows gives the sentences back. */
  lemma {:induction false} TagSentencesReadBack(page: int, ss: seq<string>)
    ensures SentencesOnPage(TagSentences(page, ss), page) == ss
    decreases |ss|
  {
    if |ss| > 0 {
      var r := TagSentences(page, ss);
      assert r[0] == Row(page, ss[0]) && r[1..] == TagSentences(page, ss[1..]);
      TagSentencesReadBack(page, ss[1..]);
      assert ss == [ss[0]] + ss[1..];
    }
  }

  /** The rows inserted for the page at list index `i`, one per recorded
      sentence, each tagged with the 1-based page number `i + 1`. */
  function RowsForPage(tok: Tokenizer, i: int, e: Extracted): seq<Row> {
    TagSentences(i + 1, PageSentences(tok, e))
  }

  /** A page with text yields one row per sentence the tokenizer finds, in the
      tokenizer's order; a page without text yields the placeholder row alone.
      Every row is on page `i + 1`. */
  lemma RowsForPageContent(tok: Tokenizer, i: int, e: Extracted)
    ensures PagesWithin(RowsForPage(tok, i, e), i + 1, i + 1)
    ensures HasText(e) ==> |RowsForPage(tok, i, e)| == |tok(e.content)|
    ensures HasText(e) ==> forall k :: 0 <= k < |tok(e.content)| ==>
              RowsForPage(tok, i, e)[k] == Row(i + 1, tok(e.content)[k])
    ensures !HasText(e) ==> RowsForPage(tok, i, e) == [Row(i + 1, Placeholder)]
  {
    TagSentencesContent(i + 1, PageSentences(tok, e));
  }

  /** The rows inserted by the loop `for page_number in range(lo, hi)`, in
      insertion order. A negative `lo` subscripts the page list from its end,
      as Python does. */
  function RowsForRange(doc: Document, tok: Tokenizer, lo: int, hi: int): seq<Row>
    requires hi <= |doc|
    requires lo < hi ==> -|doc| <= lo
    decreases hi - lo
  {
    if lo >= hi then []
    else RowsForPage(tok, lo, PageAt(doc, lo)) + RowsForRange(doc, tok, lo + 1, hi)
  }

  /** The loop visits only indices in [lo, hi), so the rows of [lo, hi) carry
      page numbers in [lo + 1, hi]. */
  lemma {:induction false} RowsForRangeWithin(doc: Document, tok: Tokenizer, lo: int, hi: int)
    requires hi <= |doc|
    requires lo < hi ==> -|doc| <= lo
    ensures PagesWithin(RowsForRange(doc, tok, lo, hi), lo + 1, hi)
    decreases hi - lo
  {
    if lo < hi {
      RowsForRangeWithin(doc, tok, lo + 1, hi);
      RowsForPageContent(tok, lo, PageAt(doc, lo));
      WithinConcat(RowsForPage(tok, lo, PageAt(doc, lo)), RowsForRange(doc, tok, lo + 1, hi), lo + 1, hi);
    }
  }

  /** The loop visits its indices in increasing order, so the rows of [lo, hi)
      never go back to an earlier page. */
  lemma {:induction false} RowsForRangeAscending(doc: Document, tok: Tokenizer, lo: int, hi: int)
    requires hi <= |doc|
    requires lo < hi ==> -|doc| <= lo
    ensures PagesAscending(RowsForRange(doc, tok, lo, hi))
    decreases hi - lo
  {
    if lo < hi {
      var here := RowsForPage(tok, lo, PageAt(doc, lo));
      var rest := RowsForRange(doc, tok, lo + 1, hi);
      RowsForRangeAscending(doc, tok, lo + 1, hi);
      RowsForRangeWithin(doc, tok, lo + 1, hi);
      RowsForPageContent(tok, lo, PageAt(doc, lo));
      AscendingConcat(here, rest, lo + 1, lo + 2);
    }
  }

  /** What one call of the chunk function does to the document's rows. */
  datatype ChunkOutcome =
    | Skipped                    // start_page >= total_pages: early return, no commit
    | PageIndexError             // pdf.pages[start_page] raised IndexError, no commit
    | Committed(rows: seq<Row>)  // these rows were inserted and committed together

  /** The chunk function's decision and the rows it inserts. */
  function ProcessChunk(doc: Document, tok: Tokenizer, start: int, end: int): (o: ChunkOutcome)
    ensures o.Skipped? <==> start >= |doc|
    ensures o.PageIndexError? <==> start < |doc| && start < end && start < -|doc|
    ensures o.Committed? && end <= start ==> o.rows == []
  {
    var total := |doc|;
    if start >= total then Skipped
    else
      var stop := Min(end, total);
      if start < stop && start < -total then PageIndexError
      else Committed(RowsForRange(doc, tok, start, stop))
  }

  /** A chunk with a non-negative start that is not skipped commits rows whose
      page numbers lie in [start_page + 1, min(end_page, total_pages)], hence
      in [1, total_pages], in non-decreasing order. */
  lemma ChunkRowsBounded(doc: Document, tok: Tokenizer, start: int, end: int)
    requires 0 <= start < |doc|
    ensures ProcessChunk(doc, tok, start, end).Committed?
    ensures PagesWithin(ProcessChunk(doc, tok, start, end).rows, start + 1, Min(end, |doc|))
    ensures PagesWithin(ProcessChunk(doc, tok, start, end).rows, 1, |doc|)
    ensures PagesAscending(ProcessChunk(doc, tok, start, end).rows)
  {
    RowsForRangeWithin(doc, tok, start, Min(end, |doc|));
    RowsForRangeAscending(doc, tok, start, Min(end, |doc|));
  }

  /** The database after one call of the chunk function: the table is created
      first in every case, and rows are appended only on the committed path. */
  function PreprocessChunk(db: Db, doc: Document, tok: Tokenizer, start: int, end: int): (r: Db)
    ensures r.Table?
    ensures start >= |doc| ==> Rows(r) == Rows(db)
    ensures !(start < |doc| && start < end && start < -|doc|) ==>
              Rows(r) == Rows(db) + RowsForRange(doc, tok, start, Min(end, |doc|))
  {
    var created := CreateTable(db);
    match ProcessChunk(doc, tok, start, end)
    case Committed(rows) => Commit(created, rows)
    case _ => created
  }

  /** The chunk function only appends: every row already in the database is
      still there, in the same place, whatever the chunk does. */
  lemma PreprocessChunkKeepsRows(db: Db, doc: Document, tok: Tokenizer, start: int, end: int)
    ensures |Rows(db)| <= |Rows(PreprocessChunk(db, doc, tok, start, end))|
    ensures Rows(PreprocessChunk(db, doc, tok, start, end))[..|Rows(db)|] == Rows(db)
  {
  }

  /** When the chunk skips or raises before inserting, the database ends up
      with the table created and exactly its earlier rows; an existing table
      is left as it was. */
  lemma ChunkWithoutCommit(db: Db, doc: Document, tok: Tokenizer, start: int, end: int)
    requires !ProcessChunk(doc, tok, start, end).Committed?
    ensures PreprocessChunk(db, doc, tok, start, end) == Table(Rows(db))
    ensures db.Table? ==> PreprocessChunk(db, doc, tok, start, end) == db
  {
  }

  /** One step of the loop: the rows of [lo, hi) are those of page `lo`
      followed by those of [lo + 1, hi). */
  lemma RowsForRangeStep(doc: Document, tok: Tokenizer, lo: int, hi: int)
    requires -|doc| <= lo < hi <= |doc|
    ensures RowsForRange(doc, tok, lo, hi)
         == RowsForPage(tok, lo, PageAt(doc, lo)) + RowsForRange(doc, tok, lo + 1, hi)
  {
  }

  /** Splitting a page range at any point splits its rows at the same point:
      the rows of [lo, hi) are those of [lo, mid) followed by those of [mid, hi). */
  lemma {:induction false} RowsForRangeSplit(doc: Document, tok: Tokenizer, lo: int, mid: int, hi: int)
    requires lo <= mid <= hi <= |doc|
    requires lo < hi ==> -|doc| <= lo
    ensures RowsForRange(doc, tok, lo, hi) == RowsForRange(doc, tok, lo, mid) + RowsForRange(doc, tok, mid, hi)
    decreases mid - lo
  {
    if lo < mid {
      RowsForRangeSplit(doc, tok, lo + 1, mid, hi);
      RowsForRangeStep(doc, tok, lo, hi);
      RowsForRangeStep(doc, tok, lo, mid);
    }
  }

  /** Reading back the rows of one page under its own number gives exactly the
      sentences the loop recorded for it. */
  lemma PageRowsSentences(tok: Tokenizer, i: int, e: Extracted)
    ensures SentencesOnPage(RowsForPage(tok, i, e), i + 1) == PageSentences(tok, e)
  {
    TagSentencesReadBack(i + 1, PageSentences(tok, e));
  }

  /** The first page of a range reads back its own sentences: later pages
      carry larger numbers and add nothing to it. */
  lemma FirstPageSentences(doc: Document, tok: Tokenizer, lo: int, hi: int)
    requires -|doc| <= lo < hi <= |doc|
    ensures SentencesOnPage(RowsForRange(doc, tok, lo, hi), lo + 1) == PageSentences(tok, PageAt(doc, lo))
  {
    var here := RowsForPage(tok, lo, PageAt(doc, lo));
    var rest := RowsForRange(doc, tok, lo + 1, hi);
    RowsForRangeStep(doc, tok, lo, hi);
    RowsForRangeWithin(doc, tok, lo + 1, hi);
    SentencesOnPageBeforeOthers(here, rest, lo + 1, lo + 2, hi);
    PageRowsSentences(tok, lo, PageAt(doc, lo));
  }

  /** A later page reads back the same sentences from [lo, hi) as from
      [lo + 1, hi): the rows of page `lo` are all on another page. */
  lemma LaterPageSentences(doc: Document, tok: Tokenizer, lo: int, hi: int, p: int)
    requires -|doc| <= lo < p < hi <= |doc|
    ensures SentencesOnPage(RowsForRange(doc, tok, lo, hi), p + 1)
         == SentencesOnPage(RowsForRange(doc, tok, lo + 1, hi), p + 1)
  {
    var here := RowsForPage(tok, lo, PageAt(doc, lo));
    var rest := RowsForRange(doc, tok, lo + 1, hi);
    RowsForRangeStep(doc, tok, lo, hi);
    RowsForPageContent(tok, lo, PageAt(doc, lo));
    SentencesOnPageAfterOthers(here, rest, p + 1, lo + 1, lo + 1);
  }

  /** The sentences stored for a page visited by the loop are exactly what that
      page contributes: the tokenizer's output in order when it has text, the
      placeholder alone when it has none. */
  lemma {:induction false} RangePageSentences(doc: Document, tok: Tokenizer, lo: int, hi: int, p: int)
    requires lo <= p < hi <= |doc|
    requires -|doc| <= lo
    ensures SentencesOnPage(RowsForRange(doc, tok, lo, hi), p + 1) == PageSentences(tok, PageAt(doc, p))
    decreases p - lo
  {
    if lo == p {
      FirstPageSentences(doc, tok, lo, hi);
    } else {
      LaterPageSentences(doc, tok, lo, hi, p);
      RangePageSentences(doc, tok, lo + 1, hi, p);
    }
  }

  /** For a committed chunk with a non-negative start, every page in the
      clamped range has exactly its own sentences (or the placeholder) stored
      under its 1-based number. */
  lemma ChunkPageSentences(doc: Document, tok: Tokenizer, start: int, end: int, p: int)
    requires 0 <= start <= p < Min(end, |doc|)
    ensures ProcessChunk(doc, tok, start, end).Committed?
    ensures HasText(doc[p]) ==>
              SentencesOnPage(ProcessChunk(doc, tok, start, end).rows, p + 1) == tok(doc[p].content)
    ensures !HasText(doc[p]) ==>
              SentencesOnPage(ProcessChunk(doc, tok, start, end).rows, p + 1) == [Placeholder]
  {
    RangePageSentences(doc, tok, start, Min(end, |doc|), p);
  }

  /** When the tokenizer finds a sentence in every non-empty page text, every
      page in the range is represented by at least one row. */
  lemma RangeCoversEveryPage(doc: Document, tok: Tokenizer, lo: int, hi: int, p: int)
    requires TokenizerCovers(doc, tok)
    requires lo <= p < hi <= |doc|
    requires -|doc| <= lo
    ensures |SentencesOnPage(RowsForRange(doc, tok, lo, hi), p + 1)| >= 1
  {
    RangePageSentences(doc, tok, lo, hi, p);
    CoveredPageHasSentence(doc, tok, p);
  }

  /** Under the same condition, a range of n pages produces at least n rows. */
  lemma {:induction false} RangeRowCount(doc: Document, tok: Tokenizer, lo: int, hi: int)
    requires TokenizerCovers(doc, tok)
    requires hi <= |doc|
    requires lo < hi ==> -|doc| <= lo
    ensures |RowsForRange(doc, tok, lo, hi)| >= hi - lo
    decreases hi - lo
  {
    if lo < hi {
      CoveredPageHasSentence(doc, tok, lo);
      RowsForRangeStep(doc, tok, lo, hi);
      RangeRowCount(doc, tok, lo + 1, hi);
      TagSentencesContent(lo + 1, PageSentences(tok, PageAt(doc, lo)));
    }
  }
}
