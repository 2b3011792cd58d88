/**
 The module-level driver: it splits the page indices [0, total_pages) into
 consecutive chunks of `chunk_size` pages and calls the chunk function on each
 in turn, `for start_page in range(0, total_pages, chunk_size)`.
 */
module Driver {
  import opened Pages
  import opened Store
  import opened Chunk

  /** The chunk size the script uses. */
  const ChunkSize: nat := 100

  /** `range(from, total, size)`: the chunk starts from `from` on, one every
      `size` pages, while they are below `total`. */
  function StartsFrom(from: nat, total: nat, size: nat): (starts: seq<nat>)
    requires size > 0
    ensures forall i :: 0 <= i < |starts| ==> from <= starts[i] < total
    decreases total - from
  {
    if from >= total then [] else [from] + StartsFrom(from + size, total, size)
  }

  /** The `k`-th start is `from + k * size`; every start is below `total`; and
      the first value past the last start reaches `total`. */
  lemma {:induction false} StartsFromShape(from: nat, total: nat, size: nat)
    requires size > 0
    ensures forall k :: 0 <= k < |StartsFrom(from, total, size)| ==>
              StartsFrom(from, total, size)[k] == from + k * size < total
    ensures from + |StartsFrom(from, total, size)| * size >= total
    decreases total - from
  {
    if from < total {
      var starts := StartsFrom(from, total, size);
      var rest := StartsFrom(from + size, total, size);
      StartsFromShape(from + size, total, size);
      forall k | 1 <= k < |starts|
        ensures starts[k] == from + k * size
      {
        assert starts[k] == rest[k - 1];
        ShiftMul(from, size, k);
      }
      ShiftMul(from, size, |starts|);
    }
  }

  /** Moving the origin up by one step removes one step. */
  lemma ShiftMul(from: int, size: int, k: int)
    ensures (from + size) + (k - 1) * size == from + k * size
  {
  }

  /** The chunk starts of the driver loop: 0, size, 2 * size, ... below total. */
  function ChunkStarts(total: nat, size: nat): seq<nat>
    requires size > 0
  {
    StartsFrom(0, total, size)
  }

  /** How a run of the driver ends: it finishes, or the chunk function raises
      and the exception ends the script. Either way the database keeps what
      was committed. */
  datatype RunOutcome = Finished(db: Db) | Crashed(db: Db)

  /** Calls the chunk function for each start in `starts`, in order, each
      chunk ending `size` pages after its start. */
  function RunChunks(doc: Document, tok: Tokenizer, size: nat, starts: seq<nat>, db: Db): RunOutcome
    decreases |starts|
  {
    if |starts| == 0 then Finished(db)
    else
      var start := starts[0];
      var db' := PreprocessChunk(db, doc, tok, start, start + size);
      if ProcessChunk(doc, tok, start, start + size).PageIndexError? then Crashed(db')
      else RunChunks(doc, tok, size, starts[1..], db')
  }

  /** The whole driver over a document with `size`-page chunks. */
  function Run(doc: Document, tok: Tokenizer, size: nat, db: Db): RunOutcome
    requires size > 0
  {
    RunChunks(doc, tok, size, ChunkStarts(|doc|, size), db)
  }

  /** The page index just past chunk `k`: its start plus `size`, clamped to
      the page count as the chunk function clamps `end_page`. */
  function ChunkEnd(total: nat, size: nat, k: nat): nat
    requires size > 0 && k < |ChunkStarts(total, size)|
  {
    Min(ChunkStarts(total, size)[k] + size, total)
  }

  /** The chunks tile [0, total): the first starts at 0, each one ends where
      the next begins, and the last is cut short at the page count. */
  lemma ChunksTile(total: nat, size: nat)
    requires size > 0
    ensures total > 0 ==> |ChunkStarts(total, size)| > 0 && ChunkStarts(total, size)[0] == 0
    ensures forall k :: 0 <= k < |ChunkStarts(total, size)| - 1 ==>
              ChunkEnd(total, size, k) == ChunkStarts(total, size)[k + 1]
    ensures |ChunkStarts(total, size)| > 0 ==>
              ChunkEnd(total, size, |ChunkStarts(total, size)| - 1) == total
    ensures forall k :: 0 <= k < |ChunkStarts(total, size)| ==>
              ChunkStarts(total, size)[k] < ChunkEnd(total, size, k)
  {
    var starts := ChunkStarts(total, size);
    var n := |starts|;
    StartsFromShape(0, total, size);
    forall k | 0 <= k < n - 1
      ensures ChunkEnd(total, size, k) == starts[k + 1]
    {
      assert starts[k + 1] == (k + 1) * size == k * size + size;
    }
    if n > 0 {
      assert starts[n - 1] + size == (n - 1) * size + size == n * size;
    }
  }

  /** The `k`-th chunk starts at page index `k * size`, below the page count. */
  lemma ChunkStartAt(total: nat, size: nat, k: nat)
    requires size > 0 && k < |ChunkStarts(total, size)|
    ensures ChunkStarts(total, size)[k] == k * size < total
  {
    StartsFromShape(0, total, size);
  }

  /** The chunk starts run on until `|starts| * size` reaches the page count. */
  lemma ChunkStartsReach(total: nat, size: nat)
    requires size > 0
    ensures |ChunkStarts(total, size)| * size >= total
  {
    StartsFromShape(0, total, size);
  }

  /** Every page index below the page count falls in chunk `p / size`, and in
      no other chunk. */
  lemma PageInOneChunk(total: nat, size: nat, p: nat)
    requires size > 0 && p < total
    ensures p / size < |ChunkStarts(total, size)|
    ensures ChunkStarts(total, size)[p / size] <= p < ChunkEnd(total, size, p / size)
    ensures forall k :: 0 <= k < |ChunkStarts(total, size)| && k != p / size ==>
              !(ChunkStarts(total, size)[k] <= p < ChunkEnd(total, size, k))
  {
    var n := |ChunkStarts(total, size)|;
    var q := p / size;
    DivisionBounds(p, size);
    ChunkStartsReach(total, size);
    MulCancel(q, n, size);
    ChunkStartAt(total, size, q);
    forall k | 0 <= k < n && ChunkStarts(total, size)[k] <= p < ChunkEnd(total, size, k)
      ensures k == q
    {
      ChunkStartAt(total, size, k);
      DivisionByBounds(p, size, k);
    }
  }

  /** With a chunk size of at least the page count, a non-empty document is
      ingested in a single chunk. */
  lemma OneChunkWhenSizeCoversDocument(total: nat, size: nat)
    requires 0 < total <= size
    ensures |ChunkStarts(total, size)| == 1
  {
    ChunkCount(total, size);
    DivisionByBounds(total + size - 1, size, 1);
  }

  /** There are ceil(total / size) chunks. */
  lemma ChunkCount(total: nat, size: nat)
    requires size > 0
    ensures |ChunkStarts(total, size)| == (total + size - 1) / size
  {
    var starts := ChunkStarts(total, size);
    var n := |starts|;
    StartsFromShape(0, total, size);
    assert n * size >= total;
    if n > 0 {
      assert starts[n - 1] == (n - 1) * size < total;
    }
    DivisionByBounds(total + size - 1, size, n);
  }

  /** Where the first `k` chunks stop: the start of chunk `k`, or the page
      count when there is no chunk `k`. */
  function PrefixEnd(starts: seq<nat>, total: nat, k: nat): nat {
    if k < |starts| then starts[k] else total
  }

  /** Running the first `k` chunks from `from` on commits exactly the rows of
      one pass over the pages from `from` up to where those chunks stop,
      after the rows the database already held. */
  lemma {:induction false} RunPrefixFrom(doc: Document, tok: Tokenizer, size: nat, from: nat, k: nat, db: Db)
    requires size > 0
    requires 1 <= k <= |StartsFrom(from, |doc|, size)|
    ensures RunChunks(doc, tok, size, StartsFrom(from, |doc|, size)[..k], db)
         == Finished(Table(Rows(db) + RowsForRange(doc, tok, from,
                                                   PrefixEnd(StartsFrom(from, |doc|, size), |doc|, k))))
    decreases k
  {
    var total := |doc|;
    var starts := StartsFrom(from, total, size);
    var rest := StartsFrom(from + size, total, size);
    var tail := rest[..k - 1];
    var mid := Min(from + size, total);
    var db1 := Table(Rows(db) + RowsForRange(doc, tok, from, mid));
    var hi := PrefixEnd(starts, total, k);
    StartsFromStep(from, total, size, k);
    if k == 1 {
      assert tail == [];
    } else {
      RunPrefixFrom(doc, tok, size, from + size, k - 1, db1);
      RunRowsJoin(doc, tok, size, tail, db, from, mid, hi);
    }
    RunChunksCons(doc, tok, size, starts[..k], tail, db, from, mid, hi);
  }

  /** If the rest of the starts, run after the first chunk, extends the
      database with the rows of [from, hi), so does the whole sequence. */
  lemma RunChunksCons(doc: Document, tok: Tokenizer, size: nat, starts: seq<nat>, tail: seq<nat>, db: Db,
                      from: nat, mid: nat, hi: int)
    requires |starts| > 0 && starts[0] == from && starts[1..] == tail
    requires mid == Min(from + size, |doc|) && from <= hi <= |doc|
    requires RunChunks(doc, tok, size, tail, Table(Rows(db) + RowsForRange(doc, tok, from, mid)))
          == Finished(Table(Rows(db) + RowsForRange(doc, tok, from, hi)))
    ensures RunChunks(doc, tok, size, starts, db) == Finished(Table(Rows(db) + RowsForRange(doc, tok, from, hi)))
  {
    RunChunksStep(doc, tok, size, starts, db);
  }

  /** Rows committed for [from, mid) and then for [mid, hi) are the rows of
      [from, hi). */
  lemma RunRowsJoin(doc: Document, tok: Tokenizer, size: nat, starts: seq<nat>, db: Db, from: nat, mid: nat, hi: int)
    requires from <= mid <= hi <= |doc|
    requires RunChunks(doc, tok, size, starts, Table(Rows(db) + RowsForRange(doc, tok, from, mid)))
          == Finished(Table(Rows(Table(Rows(db) + RowsForRange(doc, tok, from, mid)))
                            + RowsForRange(doc, tok, mid, hi)))
    ensures RunChunks(doc, tok, size, starts, Table(Rows(db) + RowsForRange(doc, tok, from, mid)))
         == Finished(Table(Rows(db) + RowsForRange(doc, tok, from, hi)))
  {
    RowsForRangeSplit(doc, tok, from, mid, hi);
    AppendAssoc(Rows(db), RowsForRange(doc, tok, from, mid), RowsForRange(doc, tok, mid, hi));
  }

  /** The facts about one step of `range` that the driver's induction uses:
      the first of the first `k` starts is `from`, the others are the first
      `k - 1` starts from `from + size`, and the prefix ends where it says. */
  lemma StartsFromStep(from: nat, total: nat, size: nat, k: nat)
    requires size > 0
    requires 1 <= k <= |StartsFrom(from, total, size)|
    ensures StartsFrom(from, total, size)[..k][0] == from
    ensures StartsFrom(from, total, size)[..k][1..] == StartsFrom(from + size, total, size)[..k - 1]
    ensures k == 1 ==> PrefixEnd(StartsFrom(from, total, size), total, k) == Min(from + size, total)
    ensures k > 1 ==> from + size <= PrefixEnd(StartsFrom(from, total, size), total, k)
                      && PrefixEnd(StartsFrom(from, total, size), total, k)
                         == PrefixEnd(StartsFrom(from + size, total, size), total, k - 1)
  {
    var starts := StartsFrom(from, total, size);
    var rest := StartsFrom(from + size, total, size);
    assert starts == [from] + rest;
    if 0 < |rest| {
      assert rest[0] == from + size;
    }
    assert starts[..k][1..] == rest[..k - 1];
  }

  /** One iteration of the driver loop commits that chunk's single-pass rows
      and carries on with the remaining starts. */
  lemma RunChunksStep(doc: Document, tok: Tokenizer, size: nat, starts: seq<nat>, db: Db)
    requires |starts| > 0
    ensures RunChunks(doc, tok, size, starts, db)
         == RunChunks(doc, tok, size, starts[1..],
                      Table(Rows(db) + RowsForRange(doc, tok, starts[0], Min(starts[0] + size, |doc|))))
  {
    var start := starts[0];
    var db1 := PreprocessChunk(db, doc, tok, start, start + size);
    assert db1 == Table(Rows(db1));
  }

  /** Crash consistency and resumability: after the first `k` chunks of the
      driver the database holds its earlier rows followed by the rows of one
      pass over the first `k * size` pages (clamped to the page count), and
      nothing from later chunks. */
  lemma RunPrefix(doc: Document, tok: Tokenizer, size: nat, k: nat, db: Db)
    requires size > 0
    requires 1 <= k <= |ChunkStarts(|doc|, size)|
    ensures RunChunks(doc, tok, size, ChunkStarts(|doc|, size)[..k], db)
         == Finished(Table(Rows(db) + RowsForRange(doc, tok, 0, Min(k * size, |doc|))))
  {
    var starts := ChunkStarts(|doc|, size);
    assert PrefixEnd(starts, |doc|, k) == Min(k * size, |doc|) by {
      if k < |starts| {
        ChunkStartAt(|doc|, size, k);
      } else {
        ChunkStartsReach(|doc|, size);
      }
    }
    RunPrefixFrom(doc, tok, size, 0, k, db);
  }

  /** The rows of one uninterrupted pass over a whole document, page after
      page: the reference the chunked run is compared against. */
  function SinglePass(doc: Document, tok: Tokenizer): seq<Row> {
    if |doc| == 0 then []
    else SinglePass(doc[..|doc| - 1], tok) + RowsForPage(tok, |doc| - 1, doc[|doc| - 1])
  }

  /** A single pass over the first `n` pages is the loop of the chunk
      function over the page range [0, n). */
  lemma {:induction false} SinglePassIsRange(doc: Document, tok: Tokenizer, n: nat)
    requires n <= |doc|
    ensures SinglePass(doc[..n], tok) == RowsForRange(doc, tok, 0, n)
  {
    if n > 0 {
      assert doc[..n][..n - 1] == doc[..n - 1];
      SinglePassIsRange(doc, tok, n - 1);
      RowsForRangeSplit(doc, tok, 0, n - 1, n);
      RowsForRangeStep(doc, tok, n - 1, n);
    }
  }

  /** Running all the chunks one after another appends the same rows, in the
      same order, as a single pass over every page. */
  lemma RunIsSinglePass(doc: Document, tok: Tokenizer, size: nat, db: Db)
    requires size > 0
    requires |doc| > 0
    ensures Run(doc, tok, size, db) == Finished(Table(Rows(db) + SinglePass(doc, tok)))
  {
    var starts := ChunkStarts(|doc|, size);
    var n := |starts|;
    var pass := RowsForRange(doc, tok, 0, |doc|);
    assert Run(doc, tok, size, db) == Finished(Table(Rows(db) + pass)) by {
      RunPrefixFrom(doc, tok, size, 0, n, db);
      assert starts[..n] == starts;
    }
    assert SinglePass(doc, tok) == pass by {
      SinglePassIsRange(doc, tok, |doc|);
      assert doc[..|doc|] == doc;
    }
  }

  /** A document without pages never reaches the chunk function, so the
      database is left as it was, without even creating the table. */
  lemma RunWithoutPages(doc: Document, tok: Tokenizer, size: nat, db: Db)
    requires size > 0
    requires |doc| == 0
    ensures Run(doc, tok, size, db) == Finished(db)
  {
  }

  /** After a run, the new rows come after the old ones, carry page numbers
      in [1, total_pages] in non-decreasing order, and page `p + 1` holds
      exactly its own sentences, or the placeholder. */
  lemma RunRowsPerPage(doc: Document, tok: Tokenizer, size: nat, db: Db, p: nat)
    requires size > 0
    requires p < |doc|
    ensures Run(doc, tok, size, db).Finished?
    ensures var after := Rows(Run(doc, tok, size, db).db);
            && |Rows(db)| <= |after|
            && after[..|Rows(db)|] == Rows(db)
            && PagesWithin(after[|Rows(db)|..], 1, |doc|)
            && PagesAscending(after[|Rows(db)|..])
            && SentencesOnPage(after[|Rows(db)|..], p + 1) == PageSentences(tok, doc[p])
  {
    RunIsSinglePass(doc, tok, size, db);
    SinglePassIsRange(doc, tok, |doc|);
    assert doc[..|doc|] == doc;
    var added := RowsForRange(doc, tok, 0, |doc|);
    var after := Rows(db) + added;
    assert after[..|Rows(db)|] == Rows(db);
    assert after[|Rows(db)|..] == added;
    RowsForRangeWithin(doc, tok, 0, |doc|);
    RowsForRangeAscending(doc, tok, 0, |doc|);
    RangePageSentences(doc, tok, 0, |doc|, p);
  }

  /** When the tokenizer finds a sentence in every non-empty page text, a run
      over N pages adds at least N rows and page `p + 1` appears among them. */
  lemma RunCoversEveryPage(doc: Document, tok: Tokenizer, size: nat, db: Db, p: nat)
    requires size > 0
    requires TokenizerCovers(doc, tok)
    requires p < |doc|
    ensures var after := Rows(Run(doc, tok, size, db).db);
            && |after| >= |Rows(db)| + |doc|
            && |SentencesOnPage(after[|Rows(db)|..], p + 1)| >= 1
  {
    RunRowsPerPage(doc, tok, size, db, p);
    RunIsSinglePass(doc, tok, size, db);
    SinglePassIsRange(doc, tok, |doc|);
    assert doc[..|doc|] == doc;
    RangeRowCount(doc, tok, 0, |doc|);
    CoveredPageHasSentence(doc, tok, p);
  }

  /** `q` is `x / d` when `q * d <= x < (q + 1) * d`. */
  lemma DivisionByBounds(x: int, d: int, q: int)
    requires d > 0
    requires q * d <= x < (q + 1) * d
    ensures x / d == q
  {
    var k := x / d;
    assert k * d <= x < (k + 1) * d;
    MulCancel(k, q + 1, d);
    MulCancel(q, k + 1, d);
  }

  /** `x / d` is the `q` with `q * d <= x < (q + 1) * d`. */
  lemma DivisionBounds(x: int, d: int)
    requires d > 0
    ensures (x / d) * d <= x < (x / d + 1) * d
  {
  }

  /** Multiplying by a positive number preserves strict order backwards. */
  lemma MulCancel(a: int, b: int, d: int)
    requires d > 0 && a * d < b * d
    ensures a < b
  {
  }
}
