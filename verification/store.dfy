/**
 The SQLite side of ingestion: one table `pdf_text(id, page_number, sentence)`
 into which rows are only ever appended. Rows are kept in id (insertion)
 order, so the table is a sequence of (page number, sentence) rows.
 */
module Store {

  /** One row of `pdf_text`, without its auto-assigned id. */
  datatype Row = Row(page: int, sentence: string)

  /** The database file: either it holds no `pdf_text` table yet, or it holds
      one with the rows committed so far, in insertion order. */
  datatype Db = NoTable | Table(rows: seq<Row>)

  /** The committed rows; a database without the table has none. */
  function Rows(db: Db): seq<Row> {
    if db.Table? then db.rows else []
  }

  /** `CREATE TABLE IF NOT EXISTS pdf_text`: creates an empty table when it is
      missing and leaves an existing table and its rows alone. */
  function CreateTable(db: Db): (r: Db)
    ensures r.Table?
    ensures Rows(r) == Rows(db)
    ensures db.Table? ==> r == db
  {
    if db.Table? then db else Table([])
  }

  /** Creating the table twice is the same as creating it once. */
  lemma CreateTableIdempotent(db: Db)
    ensures CreateTable(CreateTable(db)) == CreateTable(db)
  {
  }

  /** The INSERTs of one chunk followed by `conn.commit()`: the chunk's rows
      become visible together, after every row already committed. */
  function Commit(db: Db, rows: seq<Row>): (r: Db)
    requires db.Table?
    ensures r.Table?
    ensures |Rows(r)| == |Rows(db)| + |rows|
    ensures Rows(r)[..|Rows(db)|] == Rows(db)
    ensures Rows(r)[|Rows(db)|..] == rows
  {
    Table(db.rows + rows)
  }

  /** Concatenation of row blocks is associative. */
  lemma AppendAssoc(a: seq<Row>, b: seq<Row>, c: seq<Row>)
    ensures (a + b) + c == a + (b + c)
  {
  }

  /** Every row's page number lies in [lo, hi]. */
  predicate PagesWithin(rows: seq<Row>, lo: int, hi: int) {
    forall k :: 0 <= k < |rows| ==> lo <= rows[k].page <= hi
  }

  /** Page numbers never decrease along the rows. */
  predicate PagesAscending(rows: seq<Row>) {
    forall i, j :: 0 <= i < j < |rows| ==> rows[i].page <= rows[j].page
  }

  /** The sentences stored for page number `n`, in row order. */
  function SentencesOnPage(rows: seq<Row>, n: int): seq<string> {
    if |rows| == 0 then []
    else (if rows[0].page == n then [rows[0].sentence] else []) + SentencesOnPage(rows[1..], n)
  }

  /** Two blocks of rows on pages [lo, hi] are on pages [lo, hi] together. */
  lemma WithinConcat(a: seq<Row>, b: seq<Row>, lo: int, hi: int)
    requires PagesWithin(a, lo, hi) && PagesWithin(b, lo, hi)
    ensures PagesWithin(a + b, lo, hi)
  {
    var c := a + b;
    forall k | 0 <= k < |c|
      ensures lo <= c[k].page <= hi
    {
      if k < |a| {
        assert c[k] == a[k];
      } else {
        assert c[k] == b[k - |a|];
      }
    }
  }

  /** A block of rows all on page `p`, followed by an ascending block on pages
      from `q` >= `p` onwards, is ascending. */
  lemma AscendingConcat(a: seq<Row>, b: seq<Row>, p: int, q: int)
    requires PagesWithin(a, p, p)
    requires PagesAscending(b) && forall k :: 0 <= k < |b| ==> q <= b[k].page
    requires p <= q
    ensures PagesAscending(a + b)
  {
    var c := a + b;
    forall i, j | 0 <= i < j < |c|
      ensures c[i].page <= c[j].page
    {
      if j < |a| {
        assert c[i] == a[i] && c[j] == a[j];
      } else if i < |a| {
        assert c[i] == a[i] && c[j] == b[j - |a|];
      } else {
        assert c[i] == b[i - |a|] && c[j] == b[j - |a|];
      }
    }
  }

  /** Selecting one page's sentences distributes over concatenation. */
  lemma {:induction false} SentencesOnPageAppend(a: seq<Row>, b: seq<Row>, n: int)
    ensures SentencesOnPage(a + b, n) == SentencesOnPage(a, n) + SentencesOnPage(b, n)
    decreases |a|
  {
    if |a| == 0 {
      assert a + b == b;
    } else {
      assert (a + b)[0] == a[0];
      assert (a + b)[1..] == a[1..] + b;
      SentencesOnPageAppend(a[1..], b, n);
    }
  }

  /** Appending rows that lie on later pages does not change what page `n`
      reads back. */
  lemma SentencesOnPageBeforeOthers(a: seq<Row>, b: seq<Row>, n: int, lo: int, hi: int)
    requires PagesWithin(b, lo, hi) && n < lo
    ensures SentencesOnPage(a + b, n) == SentencesOnPage(a, n)
  {
    SentencesOnPageAppend(a, b, n);
    SentencesOnOtherPages(b, lo, hi, n);
    assert SentencesOnPage(a, n) + [] == SentencesOnPage(a, n);
  }

  /** Prepending rows that lie on earlier pages does not change what page `n`
      reads back. */
  lemma SentencesOnPageAfterOthers(a: seq<Row>, b: seq<Row>, n: int, lo: int, hi: int)
    requires PagesWithin(a, lo, hi) && hi < n
    ensures SentencesOnPage(a + b, n) == SentencesOnPage(b, n)
  {
    SentencesOnPageAppend(a, b, n);
    SentencesOnOtherPages(a, lo, hi, n);
    assert [] + SentencesOnPage(b, n) == SentencesOnPage(b, n);
  }

  /** Rows that all lie on other pages contribute no sentence to page `n`. */
  lemma {:induction false} SentencesOnOtherPages(rows: seq<Row>, lo: int, hi: int, n: int)
    requires PagesWithin(rows, lo, hi)
    requires n < lo || hi < n
    ensures SentencesOnPage(rows, n) == []
    decreases |rows|
  {
    if |rows| > 0 {
      assert PagesWithin(rows[1..], lo, hi) by {
        forall k | 0 <= k < |rows[1..]|
          ensures lo <= rows[1..][k].page <= hi
        {
          assert rows[1..][k] == rows[k + 1];
        }
      }
      SentencesOnOtherPages(rows[1..], lo, hi, n);
    }
  }

  /** Rows that all lie on page `n` give back exactly their sentences. */
  lemma {:induction false} SentencesOnSinglePage(rows: seq<Row>, n: int)
    requires PagesWithin(rows, n, n)
    ensures |SentencesOnPage(rows, n)| == |rows|
    ensures forall k :: 0 <= k < |rows| ==> SentencesOnPage(rows, n)[k] == rows[k].sentence
    decreases |rows|
  {
    if |rows| > 0 {
      assert PagesWithin(rows[1..], n, n) by {
        forall k | 0 <= k < |rows[1..]|
          ensures n <= rows[1..][k].page <= n
        {
          assert rows[1..][k] == rows[k + 1];
        }
      }
      SentencesOnSinglePage(rows[1..], n);
    }
  }
}
