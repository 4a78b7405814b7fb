/** `SQLiteDatabase` (app/utils/sqliteUtils.ts) as a class whose fields are its
    four tables: `pdfs` and `pdfs_highlight` in one database, `pdfs_vec` and
    `pdfs_virtual` in the other, plus the rowid SQLite hands the next
    `pdfs_vec` row. Each method is one statement (or one transaction) on them. */
module SqliteUtils {
  import opened Types
  import opened VectorIndex

  /** A row of `pdfs_highlight`, minus its key column `id`. `image` is stored as
      "" when the highlight has none; the highlight's `lineNumber` has no
      column. */
  datatype HighlightRow = HighlightRow(
    pdfId: string,
    pageNumber: int,
    x1: real,
    y1: real,
    x2: real,
    y2: real,
    width: real,
    height: real,
    text: string,
    image: string,
    keyword: Option<string>)

  /** The parameter array of saveHighlight's INSERT: `image ? image : ""`. */
  function ToRow(h: StoredHighlight): (row: HighlightRow)
    ensures row.pdfId == h.pdfId && row.pageNumber == h.pageNumber
    ensures row.image == if h.image.Some? then h.image.value else ""
  {
    HighlightRow(h.pdfId, h.pageNumber, h.x1, h.y1, h.x2, h.y2, h.width, h.height, h.text,
                 if h.image.Some? && h.image.value != "" then h.image.value else "",
                 h.keyword)
  }

  /** The object getHighlightsFromId builds from a row: no lineNumber, and the
      stored image string, "" included. */
  function FromRow(row: HighlightRow): (h: StoredHighlight)
    ensures ToRow(h) == row
    ensures h.lineNumber.None? && h.image.Some?
  {
    StoredHighlight(row.pdfId, row.pageNumber, None, row.x1, row.y1, row.x2, row.y2,
                    row.width, row.height, row.text, Some(row.image), row.keyword)
  }

  /** Saving a highlight and reading it back gives it back exactly when it has
      no line number and carries an image string; otherwise the line number is
      dropped and a missing image comes back as "". */
  lemma {:induction false} HighlightRoundTrip(h: StoredHighlight)
    ensures FromRow(ToRow(h)) == h <==> h.lineNumber.None? && h.image.Some?
    ensures FromRow(ToRow(h)) == h.(lineNumber := None, image := Some(if h.image.Some? then h.image.value else ""))
  {
    if h.image.Some? && h.image.value == "" {
      assert ToRow(h).image == h.image.value;
    }
  }

  class SQLiteDatabase {
    var pdfs: map<string, StoredPdf>
    var highlights: map<int, HighlightRow>
    var vecKeys: map<UnitKey, int>
    var vectors: map<int, StoredVector>
    var nextId: int

    /** The vector tables as a value. */
    function Index(): VecIndex
      reads this
    {
      VecIndex(vecKeys, vectors, nextId)
    }

    /** Every `pdfs` row sits under its own id, and the vector tables are
        consistent. */
    ghost predicate Valid()
      reads this
    {
      && (forall id :: id in pdfs ==> pdfs[id].id == id)
      && Index().Valid()
    }

    /** The first run: neither database file exists yet, so the migrations
        create four empty tables. */
    constructor ()
      ensures Valid()
      ensures pdfs == map[] && highlights == map[]
      ensures Index() == EmptyIndex()
    {
      pdfs, highlights := map[], map[];
      vecKeys, vectors, nextId := map[], map[], 1;
    }

    /** A later run: `pdfs.db` and `vecPdfs.db` are reopened with the rows
        earlier runs left in them (the migrations only create missing
        tables). The rows were written by these methods, so they satisfy the
        invariant every method keeps. */
    constructor Reopen(pdfs: map<string, StoredPdf>, highlights: map<int, HighlightRow>, index: VecIndex)
      requires forall id :: id in pdfs ==> pdfs[id].id == id
      requires index.Valid()
      ensures Valid()
      ensures this.pdfs == pdfs && this.highlights == highlights && Index() == index
    {
      this.pdfs, this.highlights := pdfs, highlights;
      vecKeys, vectors, nextId := index.keys, index.vectors, index.nextId;
    }

    /** INSERT OR REPLACE into `pdfs_highlight` under `id`. */
    method SaveHighlight(id: int, highlight: StoredHighlight)
      requires Valid()
      modifies this
      ensures Valid()
      ensures highlights == old(highlights)[id := ToRow(highlight)]
      ensures pdfs == old(pdfs) && Index() == old(Index())
    {
      highlights := highlights[id := ToRow(highlight)];
    }

    /** SELECT * FROM pdfs_highlight WHERE pdfId = ?, in no particular order.
        Each raw row keeps its `id` column: r[i] is the row under ids[i], and
        `ids` lists every matching row exactly once. */
    method GetHighlightsForPdf(pdfId: string) returns (r: seq<StoredHighlight>, ids: seq<int>)
      ensures |r| == |set id | id in highlights && highlights[id].pdfId == pdfId|
      ensures |ids| == |r|
      ensures forall i :: 0 <= i < |ids| ==>
                ids[i] in highlights && highlights[ids[i]].pdfId == pdfId && r[i] == FromRow(highlights[ids[i]])
      ensures forall id :: id in highlights && highlights[id].pdfId == pdfId ==> id in ids
      ensures forall i, j :: 0 <= i < j < |ids| ==> ids[i] != ids[j]
    {
      var todo := set id | id in highlights && highlights[id].pdfId == pdfId;
      ghost var matching := todo;
      ghost var done: set<int> := {};
      r, ids := [], [];
      while todo != {}
        invariant forall k :: k in matching <==> k in todo || k in done
        invariant todo !! done
        invariant ListsRows(r, highlights, ids, done)
        decreases |todo|
      {
        var id := Pick(todo);
        ListsRowsStep(r, highlights, ids, done, id);
        r, ids := r + [FromRow(highlights[id])], ids + [id];
        todo, done := todo - {id}, done + {id};
      }
      assert forall k :: k in done <==> k in matching;
      assert done == matching;
    }

    /** SELECT * FROM pdfs_highlight WHERE id = ?: the stored row as a
        one-element list; a missing row is an error. */
    function GetHighlightsFromId(id: int): (r: Result<seq<StoredHighlight>>)
      reads this
      ensures r.Success? <==> id in highlights
      ensures r.Success? ==> r.value == [FromRow(highlights[id])] && ToRow(r.value[0]) == highlights[id]
    {
      if id in highlights then Success([FromRow(highlights[id])]) else Failure(NotFound)
    }

    /** DELETE FROM pdfs_highlight WHERE pdfId = ? AND id = ?. */
    method DeleteHighlight(pdfId: string, id: int)
      requires Valid()
      modifies this
      ensures Valid()
      ensures highlights == if id in old(highlights) && old(highlights)[id].pdfId == pdfId
                            then old(highlights) - {id} else old(highlights)
      ensures pdfs == old(pdfs) && Index() == old(Index())
    {
      if id in highlights && highlights[id].pdfId == pdfId {
        highlights := highlights - {id};
      }
    }

    /** INSERT OR REPLACE into `pdfs`. */
    method SavePdf(file: StoredPdf)
      requires Valid()
      modifies this
      ensures Valid()
      ensures pdfs == old(pdfs)[file.id := file]
      ensures highlights == old(highlights) && Index() == old(Index())
    {
      pdfs := pdfs[file.id := file];
    }

    /** SELECT * FROM pdfs WHERE id = ?: the row, or nothing. */
    function GetPdf(id: string): (r: Option<StoredPdf>)
      reads this
      ensures r.Some? <==> id in pdfs
      ensures r.Some? ==> r.value == pdfs[id]
    {
      if id in pdfs then Some(pdfs[id]) else None
    }

    /** SELECT * FROM pdfs: every row once, in no particular order. */
    method GetAllPdfs() returns (r: seq<StoredPdf>)
      requires Valid()
      ensures |r| == |pdfs|
      ensures forall i :: 0 <= i < |r| ==> r[i].id in pdfs && pdfs[r[i].id] == r[i]
      ensures forall id :: id in pdfs ==> exists i :: 0 <= i < |r| && r[i].id == id
      ensures forall i, j :: 0 <= i < j < |r| ==> r[i].id != r[j].id
    {
      r := ListRows(pdfs);
    }

    /** DELETE FROM pdfs WHERE id = ?: no cascade to keys, vectors or
        highlights. */
    method DeletePdf(id: string)
      requires Valid()
      modifies this
      ensures Valid()
      ensures pdfs == old(pdfs) - {id}
      ensures highlights == old(highlights) && Index() == old(Index())
    {
      pdfs := pdfs - {id};
    }

    /** The saveEmbeddings transaction, step by step: count the key, insert it
        if new, read its vec_id, insert the vector if the key was new. The
        writes are staged and become visible together; a vector of the wrong
        width throws, and the staged key insert is rolled back with it. */
    method SaveEmbeddings(pdfId: string, embedding: seq<real>, pageNumber: int, lineNumber: int)
      returns (r: Result<int>)
      requires Valid()
      modifies this
      ensures Valid()
      ensures (Index(), r) == old(Index()).Save(UnitKey(pdfId, pageNumber, lineNumber), embedding)
      ensures pdfs == old(pdfs) && highlights == old(highlights)
    {
      var key := UnitKey(pdfId, pageNumber, lineNumber);
      ghost var saved := Index().Save(key, embedding);
      var isAlrThere := key in vecKeys;
      var keys, next := vecKeys, nextId;
      if !isAlrThere {
        keys, next := keys[key := next], next + 1;
      }
      var vecId := keys[key];
      var vecs := vectors;
      if !isAlrThere {
        if |embedding| != EmbeddingDim {
          assert saved == (Index(), Failure(DimensionMismatch));
          return Failure(DimensionMismatch);
        }
        vecs := vecs[vecId := StoredVector(embedding, lineNumber < 0)];
      }
      assert saved == (VecIndex(keys, vecs, next), Success(vecId));
      vecKeys, vectors, nextId := keys, vecs, next;
      r := Success(vecId);
    }

    /** The ranking statement of `search`. The selection loop stands for
        SQLite's ORDER BY … LIMIT; only its result is claimed. Every row
        evaluates vec_distance_l2, which throws on a query of the wrong width. */
    method ManualSearch(query: seq<real>, l2: (seq<real>, seq<real>) -> real) returns (r: Result<seq<Hit>>)
      requires Valid()
      ensures r.Failure? <==> vectors != map[] && |query| != EmbeddingDim
      ensures r.Success? ==> IsRanking(Index(), l2, query, r.value)
    {
      if vectors != map[] && |query| != EmbeddingDim {
        return Failure(DimensionMismatch);
      }
      var remaining := vectors.Keys;
      var hits: seq<Hit> := [];
      PartialRankingStart(Index(), l2, query);
      while |hits| < SearchLimit && remaining != {}
        invariant |hits| <= SearchLimit
        invariant PartialRanking(Index(), l2, query, hits, remaining)
        decreases |remaining|
      {
        var best := Closest(remaining, query, l2);
        PartialRankingStep(Index(), l2, query, hits, remaining, best);
        hits := hits + [Hit(best, Adjusted(l2, query, vectors[best]))];
        remaining := remaining - {best};
      }
      PartialRankingDone(Index(), l2, query, hits, remaining);
      r := Success(hits);
    }

    /** A stored vector of `candidates` with the smallest adjusted distance. */
    method Closest(candidates: set<int>, query: seq<real>, l2: (seq<real>, seq<real>) -> real) returns (best: int)
      requires candidates != {} && candidates <= vectors.Keys
      ensures best in candidates
      ensures forall c :: c in candidates ==> Adjusted(l2, query, vectors[best]) <= Adjusted(l2, query, vectors[c])
    {
      best := Pick(candidates);
      var todo := candidates - {best};
      while todo != {}
        invariant todo <= candidates && best in candidates
        invariant forall c :: c in candidates && c !in todo ==> Adjusted(l2, query, vectors[best]) <= Adjusted(l2, query, vectors[c])
        decreases |todo|
      {
        var c := Pick(todo);
        if Adjusted(l2, query, vectors[c]) < Adjusted(l2, query, vectors[best]) {
          best := c;
        }
        todo := todo - {c};
      }
    }

    /** Where `id` is registered and the metadata row of its document. */
    ghost function Locate(id: int): PdfLocation
      reads this
      requires Index().Owned(id)
    {
      var k := Index().KeyOf(id);
      PdfLocation(GetPdf(k.pdfId), k.pageNumber, k.lineNumber)
    }

    /** getPdfInfo: fills result i from hit i by looking its id up in
        `pdfs_vec` and its document in `pdfs`. An id without a `pdfs_vec` row
        makes the destructuring throw and the whole call fail; a document
        without a `pdfs` row leaves `pdf` absent. */
    method GetPdfInfo(hits: seq<Hit>) returns (r: Result<seq<SearchResult>>)
      requires Valid()
      ensures r.Success? <==> forall i :: 0 <= i < |hits| ==> Index().Owned(hits[i].id)
      ensures r.Success? ==> |r.value| == |hits|
      ensures r.Success? ==> forall i :: 0 <= i < |hits| ==>
                Index().Owned(hits[i].id) &&
                r.value[i] == SearchResult(Locate(hits[i].id), hits[i].id, hits[i].distance)
    {
      var results := new SearchResult[|hits|];
      for i := 0 to |hits|
        invariant forall j :: 0 <= j < i ==>
                    Index().Owned(hits[j].id) &&
                    results[j] == SearchResult(Locate(hits[j].id), hits[j].id, hits[j].distance)
      {
        var id := hits[i].id;
        if !(exists k :: k in vecKeys && vecKeys[k] == id) {
          return Failure(NotFound);
        }
        var k :| k in vecKeys && vecKeys[k] == id;
        assert k == Index().KeyOf(id);
        var page := GetPdf(k.pdfId);
        results[i] := SearchResult(PdfLocation(page, k.pageNumber, k.lineNumber), id, hits[i].distance);
      }
      r := Success(results[..]);
    }

    /** `search`: rank every stored vector by l2 distance minus 7.1 for images,
        keep the 30 closest, and join each back to its key and document. An
        empty store gives [] whatever the query. */
    method Search(query: seq<real>, l2: (seq<real>, seq<real>) -> real) returns (r: Result<seq<SearchResult>>)
      requires Valid()
      ensures r.Failure? <==> vectors != map[] && |query| != EmbeddingDim
      ensures r.Success? ==> IsRanking(Index(), l2, query, HitsOf(r.value))
      ensures r.Success? ==> forall i :: 0 <= i < |r.value| ==>
                Index().Owned(r.value[i].id) && r.value[i].pdfPage == Locate(r.value[i].id)
      ensures vectors == map[] ==> r == Success([])
    {
      var ranked := ManualSearch(query, l2);
      if ranked.Failure? {
        return Failure(ranked.error);
      }
      var hits := ranked.value;
      forall i | 0 <= i < |hits| ensures Index().Owned(hits[i].id) {
        assert hits[i].id in vectors;
      }
      r := GetPdfInfo(hits);
      assert HitsOf(r.value) == hits;
    }
  }

  /** A scan of the whole `pdfs` table, meeting the rows in some order. */
  method ListRows(pdfs: map<string, StoredPdf>) returns (r: seq<StoredPdf>)
    requires forall id :: id in pdfs ==> pdfs[id].id == id
    ensures ListsPdfs(r, pdfs, pdfs.Keys)
  {
    var todo := pdfs.Keys;
    ghost var done: set<string> := {};
    r := [];
    while todo != {}
      invariant forall k :: k in pdfs <==> k in todo || k in done
      invariant todo !! done
      invariant ListsPdfs(r, pdfs, done)
      decreases |todo|
    {
      var id := Pick(todo);
      ListsPdfsStep(r, pdfs, done, id);
      r := r + [pdfs[id]];
      todo, done := todo - {id}, done + {id};
    }
    assert done == pdfs.Keys;
  }

  /** `r` lists the rows of `pdfs` under `ids`, each exactly once. */
  ghost predicate ListsPdfs(r: seq<StoredPdf>, pdfs: map<string, StoredPdf>, ids: set<string>)
  {
    && ids <= pdfs.Keys
    && |r| == |ids|
    && (forall i :: 0 <= i < |r| ==> r[i].id in ids && pdfs[r[i].id] == r[i])
    && (forall id :: id in ids ==> exists i :: 0 <= i < |r| && r[i].id == id)
    && (forall i, j :: 0 <= i < j < |r| ==> r[i].id != r[j].id)
  }

  lemma ListsPdfsStep(r: seq<StoredPdf>, pdfs: map<string, StoredPdf>, ids: set<string>, id: string)
    requires ListsPdfs(r, pdfs, ids) && id in pdfs && id !in ids && pdfs[id].id == id
    ensures ListsPdfs(r + [pdfs[id]], pdfs, ids + {id})
  {
    var r' := r + [pdfs[id]];
    assert |ids + {id}| == |ids| + 1;
    forall i | 0 <= i < |r'| ensures r'[i].id in ids + {id} && pdfs[r'[i].id] == r'[i] {
      if i < |r| {
        assert r'[i] == r[i];
      }
    }
    forall other | other in ids + {id} ensures exists i :: 0 <= i < |r'| && r'[i].id == other {
      if other == id {
        assert r'[|r|].id == other;
      } else {
        var i :| 0 <= i < |r| && r[i].id == other;
        assert r'[i].id == other;
      }
    }
    forall i, j | 0 <= i < j < |r'| ensures r'[i].id != r'[j].id {
      if j < |r| {
        assert r'[i] == r[i] && r'[j] == r[j];
      } else {
        assert r'[i] == r[i] && r[i].id in ids;
      }
    }
  }

  /** `r` lists the rows of `hl` under `ids`, one entry per id, met in the
      order `order`. */
  ghost predicate ListsRows(r: seq<StoredHighlight>, hl: map<int, HighlightRow>, order: seq<int>, ids: set<int>)
  {
    && ids <= hl.Keys
    && |order| == |r| == |ids|
    && (forall i :: 0 <= i < |order| ==> order[i] in ids && r[i] == FromRow(hl[order[i]]))
    && (forall id :: id in ids ==> id in order)
    && (forall i, j :: 0 <= i < j < |order| ==> order[i] != order[j])
  }

  lemma ListsRowsStep(r: seq<StoredHighlight>, hl: map<int, HighlightRow>, order: seq<int>, ids: set<int>, id: int)
    requires ListsRows(r, hl, order, ids) && id in hl && id !in ids
    ensures ListsRows(r + [FromRow(hl[id])], hl, order + [id], ids + {id})
  {
    var r', order' := r + [FromRow(hl[id])], order + [id];
    assert |ids + {id}| == |ids| + 1;
    forall i | 0 <= i < |order'| ensures order'[i] in ids + {id} && r'[i] == FromRow(hl[order'[i]]) {
      if i < |order| {
        assert order'[i] == order[i] && r'[i] == r[i];
      }
    }
    forall other | other in ids + {id} ensures other in order' {
      if other != id {
        assert other in order;
      }
    }
    forall i, j | 0 <= i < j < |order'| ensures order'[i] != order'[j] {
      if j < |order| {
        assert order'[i] == order[i] && order'[j] == order[j];
      } else {
        assert order'[i] == order[i] && order[i] in ids;
      }
    }
  }

  /** The (id, distance) pairs of a result list. */
  function HitsOf(results: seq<SearchResult>): (hits: seq<Hit>)
    ensures |hits| == |results|
    ensures forall i :: 0 <= i < |results| ==> hits[i] == Hit(results[i].id, results[i].distance)
  {
    seq(|results|, i requires 0 <= i < |results| => Hit(results[i].id, results[i].distance))
  }
}
