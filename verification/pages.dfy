/**
 The document side of PDF ingestion: a document is the list of what the PDF
 reader's text extraction returned for each page, and sentence segmentation is
 an uninterpreted function supplied by the caller.
 */
module Pages {

  /** What text extraction returns for one page: a string, or nothing at all. */
  datatype Extracted = Absent | Text(content: string)

  /** The pages of an opened document, in page order (index 0 is page 1). */
  type Document = seq<Extracted>

  /** Sentence-boundary detection, treated as a black box. */
  type Tokenizer = string -> seq<string>

  /** The sentence recorded for a page whose extraction yields no text. */
  const Placeholder: string := "[No text found on this page]"

  /** Python truthiness of the extracted value: both "nothing" and the empty
      string are false. */
  predicate HasText(e: Extracted) {
    e.Text? && |e.content| > 0
  }

  /** Indices a Python list of the document's pages accepts: negative ones
      count from the end. */
  predicate InPyRange(doc: Document, i: int) {
    -|doc| <= i < |doc|
  }

  /** The page a Python list subscript selects; this is ordinary indexing for
      non-negative indices and wraps around once for negative ones. */
  function PageAt(doc: Document, i: int): (e: Extracted)
    requires InPyRange(doc, i)
    ensures 0 <= i ==> e == doc[i]
  {
    if i >= 0 then doc[i] else doc[|doc| + i]
  }

  /** Python subscripts wrap modulo the list length: the page at `i` is the
      page at the floored remainder of `i` by the page count. */
  lemma PageAtWraps(doc: Document, i: int)
    requires InPyRange(doc, i)
    ensures PageAt(doc, i) == doc[i % |doc|]
  {
  }

  /** The sentences the ingestion loop records for one page: the tokenizer's
      output when the page has text, the placeholder otherwise. */
  function PageSentences(tok: Tokenizer, e: Extracted): seq<string> {
    if HasText(e) then tok(e.content) else [Placeholder]
  }

  /** The condition under which every page of `doc` is sure to produce a row:
      the tokenizer finds at least one sentence in every non-empty page text. */
  predicate TokenizerCovers(doc: Document, tok: Tokenizer) {
    forall i :: 0 <= i < |doc| && HasText(doc[i]) ==> |tok(doc[i].content)| > 0
  }

  /** Under `TokenizerCovers`, every page of the document yields at least one
      sentence, whichever way it is subscripted. */
  lemma CoveredPageHasSentence(doc: Document, tok: Tokenizer, i: int)
    requires TokenizerCovers(doc, tok)
    requires InPyRange(doc, i)
    ensures |PageSentences(tok, PageAt(doc, i))| >= 1
  {
    var j := if i >= 0 then i else |doc| + i;
    assert PageAt(doc, i) == doc[j];
  }
}
