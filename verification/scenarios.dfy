/**
 Concrete runs of the ingestion on small documents, pinning down the edge
 cases of the chunk function and the driver.
 */
module Scenarios {
  import opened Pages
  import opened Store
  import opened Chunk
  import opened Driver

  const Wheat: string := "Wheat is a cereal grain. It is widely cultivated."
  const Rice: string := "Rice requires flooded fields."

  /** A stand-in sentence splitter that knows how to split the wheat page. */
  function FarmTokenizer(s: string): seq<string> {
    if s == Wheat then ["Wheat is a cereal grain.", "It is widely cultivated."] else [s]
  }

  /** Three pages: two sentences, no text, one sentence. */
  function FarmDocument(): Document {
    [Text(Wheat), Absent, Text(Rice)]
  }

  /** The rows of each farm page: the wheat page yields its two sentences,
      the empty page the placeholder, the rice page its single sentence. */
  lemma FarmPageRows()
    ensures RowsForPage(FarmTokenizer, 0, FarmDocument()[0])
         == [Row(1, "Wheat is a cereal grain."), Row(1, "It is widely cultivated.")]
    ensures RowsForPage(FarmTokenizer, 1, FarmDocument()[1]) == [Row(2, Placeholder)]
    ensures RowsForPage(FarmTokenizer, 2, FarmDocument()[2]) == [Row(3, Rice)]
  {
    var doc := FarmDocument();
    assert Wheat != Rice by {
      assert |Wheat| != |Rice|;
    }
    TagSentencesContent(1, PageSentences(FarmTokenizer, doc[0]));
    TagSentencesContent(2, PageSentences(FarmTokenizer, doc[1]));
    TagSentencesContent(3, PageSentences(FarmTokenizer, doc[2]));
  }

  /** With chunks of two pages the first chunk commits the two wheat sentences
      and the placeholder for page 2, and the second commits the rice sentence. */
  lemma FarmChunks()
    ensures ChunkStarts(3, 2) == [0, 2]
    ensures ProcessChunk(FarmDocument(), FarmTokenizer, 0, 2)
         == Committed([Row(1, "Wheat is a cereal grain."), Row(1, "It is widely cultivated."),
                       Row(2, Placeholder)])
    ensures ProcessChunk(FarmDocument(), FarmTokenizer, 2, 4) == Committed([Row(3, Rice)])
  {
    var doc := FarmDocument();
    FarmPageRows();
    assert StartsFrom(4, 3, 2) == [];
    assert StartsFrom(2, 3, 2) == [2];
    RowsForRangeStep(doc, FarmTokenizer, 0, 2);
    RowsForRangeStep(doc, FarmTokenizer, 1, 2);
    RowsForRangeStep(doc, FarmTokenizer, 2, 3);
  }

  /** Run over a fresh database, the farm document leaves four rows, in page
      order. */
  lemma FarmRun()
    ensures Run(FarmDocument(), FarmTokenizer, 2, NoTable)
         == Finished(Table([Row(1, "Wheat is a cereal grain."), Row(1, "It is widely cultivated."),
                            Row(2, Placeholder), Row(3, Rice)]))
  {
    var doc := FarmDocument();
    FarmPageRows();
    RunIsSinglePass(doc, FarmTokenizer, 2, NoTable);
    RowsForRangeStep(doc, FarmTokenizer, 0, 3);
    RowsForRangeStep(doc, FarmTokenizer, 1, 3);
    RowsForRangeStep(doc, FarmTokenizer, 2, 3);
  }

  /** A tokenizer that finds no sentence in a page of blanks. */
  function BlankBlindTokenizer(s: string): seq<string> {
    if s == " " then [] else [s]
  }

  /** A page whose text is a single blank is non-empty, so it skips the
      placeholder branch; the tokenizer finds no sentence in it, so the page
      gets no row at all. Every page is represented only when the tokenizer
      finds a sentence in every non-empty text. */
  lemma BlankPageGetsNoRow()
    ensures !TokenizerCovers([Text(" ")], BlankBlindTokenizer)
    ensures ProcessChunk([Text(" ")], BlankBlindTokenizer, 0, 100) == Committed([])
    ensures Run([Text(" ")], BlankBlindTokenizer, ChunkSize, NoTable) == Finished(Table([]))
  {
    var doc := [Text(" ")];
    assert HasText(doc[0]);
    assert RowsForRange(doc, BlankBlindTokenizer, 0, 1) == [] by {
      RowsForRangeStep(doc, BlankBlindTokenizer, 0, 1);
    }
    RunIsSinglePass(doc, BlankBlindTokenizer, ChunkSize, NoTable);
  }

  /** The identity splitter: every page text is one sentence. */
  function WholeText(s: string): seq<string> {
    [s]
  }

  /** A negative start subscripts the page list from its end, as Python does:
      on a two-page document, start -1 first records the last page under page
      number 0, then the first page under page number 1. A start below minus
      the page count raises IndexError before any row is inserted, though the
      table has already been created. */
  lemma NegativeStart()
    ensures ProcessChunk([Text("a"), Text("b")], WholeText, -1, 1)
         == Committed([Row(0, "b"), Row(1, "a")])
    ensures ProcessChunk([Text("a"), Text("b")], WholeText, -3, 1) == PageIndexError
    ensures PreprocessChunk(NoTable, [Text("a"), Text("b")], WholeText, -3, 1) == Table([])
  {
    var doc := [Text("a"), Text("b")];
    assert RowsForRange(doc, WholeText, -1, 1) == [Row(0, "b"), Row(1, "a")] by {
      RowsForRangeStep(doc, WholeText, -1, 1);
      RowsForRangeStep(doc, WholeText, 0, 1);
      TagSentencesContent(0, PageSentences(WholeText, PageAt(doc, -1)));
      TagSentencesContent(1, PageSentences(WholeText, PageAt(doc, 0)));
    }
  }

  /** Re-invoking the chunk function past the last page writes no row, but
      still creates the table in a database that lacked it. */
  lemma ResumePastEnd()
    ensures ProcessChunk([Text("a")], WholeText, 1, 101) == Skipped
    ensures PreprocessChunk(NoTable, [Text("a")], WholeText, 1, 101) == Table([])
    ensures PreprocessChunk(Table([Row(1, "a")]), [Text("a")], WholeText, 1, 101) == Table([Row(1, "a")])
  {
  }
}
