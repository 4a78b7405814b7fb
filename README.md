# PDF search back end: verified model

This project models the core of a PDF semantic-search back end. Documents are
cut into highlightable units: text lines and images. Each unit gets an
embedding, stored in SQLite through the `sqlite-vec` extension. A query
embedding returns the nearest units, with image units favoured by a fixed
bias.

The model covers five parts:

- `types.dfy` (`Types`): the shared records: `StoredPdf`, `StoredHighlight`,
  `PdfLocation`, `SearchResult`, `Viewport`. Also `Option`/`Result` and the
  error kinds the code throws.
- `vector_index.dfy` (`VectorIndex`): the vector side of the store as a
  value, `VecIndex`. It holds the identity registry `pdfs_vec`, which maps the
  unit key (pdfId, pageNumber, lineNumber) to a `vec_id`. It also holds the
  vector table `pdfs_virtual`, which maps a `vec_id` to a FLOAT32[512]
  embedding and an `isImage` flag. `VecIndex.Save` is the transaction that
  `saveEmbeddings` runs. `IsRanking` states what the ranking query
  (`ORDER BY distance ASC LIMIT 30`) must return.
- `sqlite_utils.dfy` (`SqliteUtils`): `SQLiteDatabase`, a class whose map
  fields are the four tables. Each method states its new state, or its
  result, in terms of the old one. The nearest-neighbour query is a selection
  loop that is proved to produce an `IsRanking` ranking.
- `embedding_route.dfy` (`EmbeddingRoute`): the batch ingestion `POST` route.
  It is specified by a fold, `IngestAll`, over the units of the request body.
- `pdf_utils.dfy` (`PdfUtils`): the extraction helpers:
  - document ids (`getPdfId`);
  - line and image bounding boxes (`processLine`, `processImage`);
  - grouping of pdf.js text items into lines (`getLines`);
  - numbering of painted images (`getImagesIndividual`);
  - the OCR confidence filter of `tesseractRead`.
- `highlight_utils.dfy` (`HighlightUtils`): the front end's conversion of a
  stored highlight into the viewer's `IHighlight`.

Outside effects are parameters:

- The L2 distance of `sqlite-vec` (`vec_distance_l2`) is the function
  parameter `l2`.
- The pdf.js documents are sequences of pages. A page that could not be
  fetched is `None`.
- The viewport's point conversion is a function field of the page.
- The random highlight id is the argument `nextId`.

Three facts about the code shape the model:

- The embedding width is fixed at 512 by the `pdfs_virtual` table declaration
  (`embedding FLOAT32[512]`). A save of a new key with another width fails with
  `DimensionMismatch`. A query of another width fails too, unless the vector
  table is empty.
- A search hit whose document has no `pdfs` row is returned with an absent
  `pdf`.
- The route answers 200 whenever the body is JSON other than `null`,
  whatever its units did. See "## Findings".

## Model

| member | source | states |
|---|---|---|
| VectorIndex.VecIndex.Save | app/utils/sqliteUtils.ts:298-333 | the registry invariant is kept; an already registered key returns its id and changes neither table; the save fails exactly when the key is new and the embedding is not 512 wide; a failed save changes nothing; a successful one registers the key with the returned id; every existing key keeps its id; no key other than this one is added |
| VectorIndex.EmptyIndex | app/utils/sqliteUtils.ts:77-95 | the freshly created `pdfs_vec`/`pdfs_virtual` tables satisfy the registry invariant |
| VectorIndex.SaveThenKeyOf | app/utils/sqliteUtils.ts:312-320 | the id a successful save returns is owned by exactly the saved key |
| VectorIndex.SaveNewKey | app/utils/sqliteUtils.ts:301-320 | saving a new key with a 512-wide embedding allocates one id that no key or vector used before; it adds exactly that key and that vector, flagged as an image iff lineNumber < 0; every other vector is untouched |
| VectorIndex.SaveIdempotent | app/utils/sqliteUtils.ts:301-320 | saving a key registered at any earlier time, with any embedding, returns its id and leaves both tables as they were; so a second save of the same unit changes nothing |
| VectorIndex.Adjusted | app/utils/sqliteUtils.ts:346-347 | the ranked distance `vec_distance_l2(?, embedding) - ? * isImage` is never above the raw distance, and equals it exactly for text units |
| VectorIndex.IsRanking | app/utils/sqliteUtils.ts:344-351 | the result `ORDER BY distance ASC LIMIT 30` must be: min(30, stored) distinct stored ids with their adjusted distances, ascending, none farther than a stored id left out; so never more than 30 hits nor more than stored |
| VectorIndex.PartialRankingStep | app/utils/sqliteUtils.ts:344-351 | taking a closest remaining vector extends a sorted, duplicate-free prefix of the ranking |
| VectorIndex.PartialRankingDone | app/utils/sqliteUtils.ts:344-351 | a selection stopped at 30 hits, or with nothing left, is a ranking |
| VectorIndex.EmptyRanking | app/utils/sqliteUtils.ts:344-351 | over an empty vector table, the only ranking is the empty one |
| VectorIndex.ImageRanksAhead | app/utils/sqliteUtils.ts:346-356 | an image's adjusted distance is 7.1 below that of a text unit at the same raw distance, so the image comes before that text unit in any ranking |
| VectorIndex.RankingsAgree | app/utils/sqliteUtils.ts:344-351 | two rankings of the same store and query have the same distance at every position: the result is fixed up to the order of ties |
| SqliteUtils.HighlightRoundTrip | app/utils/sqliteUtils.ts:120-206 | a highlight written by saveHighlight and read back by getHighlightsFromId comes back exactly when it has no line number and carries an image string; otherwise the line number is dropped and a missing image comes back as "" |
| SqliteUtils.ToRow | app/utils/sqliteUtils.ts:137-150 | the row keeps the highlight's pdfId and page; its image column is the highlight's image string, or "" when it has none |
| SqliteUtils.FromRow | app/utils/sqliteUtils.ts:176-201 | the object read back from a row has no line number and an image string, and writing it again gives the same row |
| SqliteUtils.SQLiteDatabase.constructor | app/utils/sqliteUtils.ts:14-30 | on the first run, when neither database file exists, the migrations leave four empty tables, which satisfy the invariant |
| SqliteUtils.SQLiteDatabase.Reopen | app/utils/sqliteUtils.ts:14-30 | on a later run the database files are reopened with the rows earlier runs left in them; the tables are exactly those rows |
| SqliteUtils.SQLiteDatabase.SaveHighlight | app/utils/sqliteUtils.ts:120-156 | INSERT OR REPLACE: the row under `id` becomes the highlight's row; the other tables are unchanged |
| SqliteUtils.SQLiteDatabase.GetHighlightsForPdf | app/utils/sqliteUtils.ts:158-167 | returns the matching rows with their `id` column: `ids` lists every matching row id exactly once, in some order, and the i-th highlight is the row under `ids[i]` read back; one highlight per matching row, duplicates included |
| SqliteUtils.SQLiteDatabase.GetHighlightsFromId | app/utils/sqliteUtils.ts:169-206 | succeeds iff a row with that id exists; it then returns that row alone, read back as `FromRow` does; a missing row is NotFound |
| SqliteUtils.SQLiteDatabase.DeleteHighlight | app/utils/sqliteUtils.ts:208-217 | removes the row only when both its id and its pdfId match; nothing else changes |
| SqliteUtils.SQLiteDatabase.SavePdf | app/utils/sqliteUtils.ts:219-229 | INSERT OR REPLACE of the metadata row keyed by the document id; the other tables are unchanged |
| SqliteUtils.SQLiteDatabase.GetPdf | app/utils/sqliteUtils.ts:231-244 | returns the row iff it exists |
| SqliteUtils.SQLiteDatabase.GetAllPdfs | app/utils/sqliteUtils.ts:246-255 | returns every metadata row exactly once, in an unspecified order |
| SqliteUtils.SQLiteDatabase.DeletePdf | app/utils/sqliteUtils.ts:257-266 | removes the metadata row of that id only |
| SqliteUtils.SQLiteDatabase.SaveEmbeddings | app/utils/sqliteUtils.ts:268-333 | the new vector tables and the returned id are exactly `VecIndex.Save` of the old ones; the metadata and highlight tables are unchanged |
| SqliteUtils.SQLiteDatabase.ManualSearch | app/utils/sqliteUtils.ts:344-357 | fails exactly when the vector table is non-empty and the query is not 512 wide; otherwise returns a ranking: min(30, stored) distinct ids in ascending adjusted distance, none of them farther than any id left out |
| SqliteUtils.SQLiteDatabase.Closest | app/utils/sqliteUtils.ts:344-351 | picks a candidate whose adjusted distance is minimal among the candidates |
| SqliteUtils.SQLiteDatabase.GetPdfInfo | app/utils/sqliteUtils.ts:359-374 | succeeds iff every hit's id is registered; it then resolves each hit, in order, to its document row (absent if missing), page and line, keeping id and distance |
| SqliteUtils.SQLiteDatabase.Search | app/utils/sqliteUtils.ts:335-385 | fails only on a query-width mismatch with a non-empty table; an empty store returns []; otherwise the results form a ranking and each is located at its unit's document, page and line |
| EmbeddingRoute.IngestBatch | app/api/index/embedding/route.ts:10-19 | the tables after the loop, and its failure flag, are `IngestAll` of the units in body order; the metadata table is unchanged |
| EmbeddingRoute.Step | app/api/index/embedding/route.ts:12-18 | one iteration sets the failure flag exactly when the unit's save throws, writes nothing in that case, and keeps the registry invariant |
| EmbeddingRoute.IngestAll | app/api/index/embedding/route.ts:10-19 | over the whole body, a failure flag once set stays set, and the registry invariant holds after any batch |
| EmbeddingRoute.Post | app/api/index/embedding/route.ts:4-30 | as written: a body that is not JSON, or is `null`, gives 500 and changes nothing; a body without a length changes nothing and gives 200; an array is ingested as `IngestAll` and gives 200 |
| EmbeddingRoute.PostIntended | app/api/index/embedding/route.ts:15-20 | corrected: for an array body, the answer is 200 exactly when no unit's save failed, and 500 otherwise; the other bodies are answered as written |
| EmbeddingRoute.IngestAllAppend | app/api/index/embedding/route.ts:10-19 | ingesting a body in two parts equals ingesting it whole |
| EmbeddingRoute.FailedUnitIsolated | app/api/index/embedding/route.ts:12-18 | a unit whose save throws leaves the tables as they were, so the units after it are ingested as if it were absent |
| EmbeddingRoute.IngestAllIgnoresFlag | app/api/index/embedding/route.ts:15-18 | an earlier failure does not change what later units write |
| EmbeddingRoute.IngestAllRegisters | app/api/index/embedding/route.ts:10-13 | after a batch, every unit with a 512-wide embedding is registered, and every registered key was registered before or belongs to such a unit |
| EmbeddingRoute.HighlightSurvives | app/api/index/embedding/route.ts:13-14 | the highlight of a unit whose save did not throw is stored under the id registered for its key, and stays there unless a later unit of the same key brings its own highlight |
| EmbeddingRoute.IngestAllFailed | app/api/index/embedding/route.ts:15-17 | the failure flag is set exactly when it was set before or some unit's save fails |
| EmbeddingRoute.StatusHidesFailure | app/api/index/embedding/route.ts:17-20 | a one-unit body with an empty embedding, on an empty store, sets the failure flag: its save throws, while `Post` answers 200 for every array body |
| PdfUtils.ReplaceFirstAt | app/utils/pdfUtils.ts:405-408 | `replace` with a string pattern: the input unchanged when the character is absent; otherwise only its first occurrence is replaced |
| PdfUtils.ReplaceFirstCount | app/utils/pdfUtils.ts:405-408 | replacing a character that occurs, by text without it, lowers its count by exactly one |
| PdfUtils.ReplaceFirst | app/utils/pdfUtils.ts:405-408 | a string without the character comes back unchanged (the first-occurrence rewrite is stated by ReplaceFirstAt) |
| PdfUtils.GetPdfId | app/utils/pdfUtils.ts:405-409 | the id starts with the name's id, and is longer than it exactly when the email is truthy |
| PdfUtils.GetPdfIdName | app/utils/pdfUtils.ts:405-408 | without a truthy email, `p.q` with no dot in `p` becomes `p__q` |
| PdfUtils.GetPdfIdEmail | app/utils/pdfUtils.ts:406-407 | with the email `u@d.t` (no `@` in `u`, no dot in `u` or `d`), the id is the name's id, then `__u__at__d__t` |
| PdfUtils.GetPdfIdDottedEmail | app/utils/pdfUtils.ts:406-407 | with the email `a.b@v`, the first dot is the one in the local part: `__a__b__at__v` |
| PdfUtils.GetPdfIdCollision | app/utils/pdfUtils.ts:405-408 | the file names `p.q` and `p__q` (no dot in `p`) get the same id |
| PdfUtils.MaxHeight | app/utils/pdfUtils.ts:317-319 | the maximum item height: at least every item's height, and equal to one of them |
| PdfUtils.ProcessLine | app/utils/pdfUtils.ts:298-349 | fails on an empty line; otherwise y1 <= y2; x1 is the first item's x; x2 is the last item's x plus its width; page, line and text are passed through; the viewport size is recorded; there is no image |
| PdfUtils.ProcessLineSpan | app/utils/pdfUtils.ts:314-339 | the flipped box runs from height - y0 - MaxHeight to height - y0, so it is as tall as the line's tallest item |
| PdfUtils.ProcessImage | app/utils/pdfUtils.ts:351-403 | x1 is the given x and x2 - x1 the width; the two y edges are the given y and the given y minus the height, lower first, so y2 - y1 is the absolute height; an image is recorded iff the URL is truthy |
| PdfUtils.Runs | app/utils/pdfUtils.ts:140-173 | every line run is non-empty, and there are no runs exactly when there are no items |
| PdfUtils.RunsAreLineSplit | app/utils/pdfUtils.ts:140-173 | the runs concatenate back to the items; items within a run share a y; consecutive runs differ in y at their boundary |
| PdfUtils.LineSplitUnique | app/utils/pdfUtils.ts:140-173 | any split with those properties is the grouping the loop computes |
| PdfUtils.GroupLines | app/utils/pdfUtils.ts:133-173 | the page's highlights are `PageLines`: one per run, in order |
| PdfUtils.PageLines | app/utils/pdfUtils.ts:133-173 | one highlight per line run, and none exactly when the page has no items |
| PdfUtils.PageLineNumbers | app/utils/pdfUtils.ts:144-171 | a line closed by the item at index j is numbered j + 1; the last line is numbered with the item count |
| PdfUtils.LineBoundaries | app/utils/pdfUtils.ts:140-159 | each line starts right after the end of the previous one, and the y changes there |
| PdfUtils.LastTwoLinesShareNumber | app/utils/pdfUtils.ts:150-169 | with two or more lines, the last two carry the same number exactly when the last line has one item |
| PdfUtils.PageLinesText | app/utils/pdfUtils.ts:134-172 | the lines' texts, concatenated, are the page's item strings concatenated: no text is lost or repeated |
| PdfUtils.GetLines | app/utils/pdfUtils.ts:101-181 | a page pdf.js fails to deliver makes the whole result []; otherwise page p gets `PageLines` with page number p + 1 |
| PdfUtils.ImagesNumbered | app/utils/pdfUtils.ts:215-262 | one highlight per recorded paint, numbered -1, -2, ... in paint order, on the scanned page, with empty text |
| PdfUtils.ImagesAfter | app/utils/pdfUtils.ts:217-262 | at most one image per operator, each on the scanned page of the document |
| PdfUtils.PlaceImage | app/utils/pdfUtils.ts:228-261 | the image's box starts at the converted translation, is as wide as \|a\| and as tall as \|d\| below it; it carries the running line number, empty text and the URL as image |
| PdfUtils.TransformAfter | app/utils/pdfUtils.ts:215-220 | the current transform after a prefix of the operator list is the identity `[1, 0, 0, 1, 0, 0]` or a matrix some `transform` operator set |
| PdfUtils.TransformAfterLastSet | app/utils/pdfUtils.ts:217-220 | a `transform` operator replaces the current matrix: after the last one that sets `m`, the current transform is `m` |
| PdfUtils.ScanImages | app/utils/pdfUtils.ts:213-277 | the loop over the operator list computes `ImagesAfter`: the latest transform places each recorded image |
| PdfUtils.GetImagesIndividual | app/utils/pdfUtils.ts:183-287 | one entry per page; a page that fails contributes []; numbering restarts at -1 on every page, with page number p + 1 |
| PdfUtils.OcrPage | app/utils/pdfUtils.ts:60-89 | no entry without a produced PDF; nothing below confidence 60; otherwise one highlight per OCR line, numbered from 1, on page index + 1, with the line's text and no image, and each is exactly `OcrLineHighlight` of its line (box, pdfId, viewport size) |
| PdfUtils.OcrLineHighlight | app/utils/pdfUtils.ts:63-80 | the box starts at the OCR line's x0, is as wide as \|x0 - x1\|, has y1 of the box as its upper edge and is as tall as \|y0 - y1\|; numbered j + 1 on page index + 1, with the line's text and no image |
| PdfUtils.OcrBoxPreserved | app/utils/pdfUtils.ts:63-80 | an OCR box with x0 <= x1 and y0 <= y1 is stored with exactly those corners |
| HighlightUtils.StoredHighlightToIHighlight | front-end/app/utils/utils.ts:7-44 | the only rectangle is the bounding one; it is on the highlight's page; the comment repeats the content text with an empty emoji; the id is the drawn one |
| HighlightUtils.ConversionRoundTrip | front-end/app/utils/utils.ts:10-42 | only pdfId, lineNumber and keyword are lost: restoring them recovers the stored highlight |
| HighlightUtils.ConversionIgnoresDropped | front-end/app/utils/utils.ts:10-42 | under the same id, two highlights convert alike iff they agree on page, box, viewport size, text and image |

## Left out

- The SQL engines and drivers (`sqlite3`, `better-sqlite3`, `sqlite-vec`) are out of scope. Tables are maps, and statements are map updates.
- The distance function `vec_distance_l2` is out of scope; it is the parameter `l2`.
- Rounding of embeddings to FLOAT32 is not modelled.
- Coordinates, sizes and distances are exact reals, where JavaScript uses doubles. The exact extents stated by `ProcessLine`, `ProcessImage`, `PlaceImage` and `OcrLineHighlight` (`x2 - x1 == width`, `y2 - y1 == Abs(height)`) need not hold after floating-point rounding.
- Storage failures of the engines (the unavailable database) are not modelled.
- SqliteUtils.SQLiteDatabase.constructor: it models the first run only, when the database files do not exist yet. Every request builds a new `SQLiteDatabase` on the same files, so later runs reopen the rows earlier runs left. `SqliteUtils.SQLiteDatabase.Reopen` models that case. It takes the persisted tables as parameters and requires them to satisfy the invariant, because only these methods write the files and each keeps the invariant.
- `migrate`, `vecMigrate` and `close` are not modelled. The database `close` in the route's `finally` block is not modelled either. The migrations appear only as the empty tables of the constructor.
- SqliteUtils.SQLiteDatabase.GetAllPdfs: SQLite's row order is not fixed by the model. The order is any order of the rows.
- SqliteUtils.SQLiteDatabase.ManualSearch: ties are ordered arbitrarily, where SQLite picks some order.
- SqliteUtils.SQLiteDatabase.GetHighlightsFromId: a missing row throws inside the driver callback, which the caller never sees settle. The model reports it as `NotFound`.
- SqliteUtils.SQLiteDatabase.DeleteHighlight: the string-to-number conversion of the id by the driver is not modelled.
- NOT NULL constraint errors on insert are not modelled. Inputs are taken as complete records.
- `PdfLocation.storedHighlight` is never set by the code, so it is not part of the record.
- EmbeddingRoute.Post: a body is not JSON, `null`, a value without a `length`, or an array of well-formed units. An array or string whose elements are not unit records (a string body's characters, say) is not modelled. Each such element goes through its own try block, and the route still answers 200.
- EmbeddingRoute.IngestBatch: two requests can interleave at the route's `await` points. The equality with `IngestAll` assumes that one batch has the store to itself.
- The `text` array that `getLines` fills beside `highlights` is never returned, so it is not modelled.
- pdf.js and Tesseract themselves are not modelled. Pages, text items, operator lists and OCR results are inputs. The viewport's point conversion is a function parameter.
- PdfUtils.GetImagesIndividual: a document that cannot be opened at all yields `[[]]` in the code. The model takes the opened document's pages as input, so it does not produce that value.
- PdfUtils.ScanImages: the busy-wait on a zero-size bitmap never ends in the code. The model has no case for it: every painted image either is recorded or is not.
- PdfUtils.ScanImages: a `transform` operator replaces the current matrix, as the code does. It is not concatenated, as the PDF imaging model would do.
- PdfUtils.OcrPage: `tesseractRead` stores page entries from callbacks that it does not await. Its returned array may still lack entries, and that concurrency is not modelled. `OcrPage` is the entry one callback writes.
- The rendering of page images to data URLs (canvas, bitmaps) is not modelled. Each painted image's outcome is an input.
- The random id source `getNextId` is not modelled; it is the parameter `nextId`.

## Findings

| source | as written | input that shows it | evidently intended | confidence | as-written member | corrected member |
|---|---|---|---|---|---|---|
| app/api/index/embedding/route.ts:17-20 | the catch block sets a 500 response, but line 20 then overwrites it with 200 after the loop | a body with one unit whose embedding is empty, on an empty store: its save fails, yet the route answers 200 | answer 500 when any unit failed, 200 only when every unit was saved | not executed | EmbeddingRoute.StatusHidesFailure | EmbeddingRoute.PostIntended |
