# Photo sorting: matching a student against the school gallery

This project models the `/sorting/find` route of the photo-sorting service, `find_student_photos` in `routers/sorting.py`. Given a student id, the route:

1. looks the student up in the `studentEmbedding` collection and fails with 404 when the student is unknown, or with 400 when the student has no embedding;
2. reads the `galleryEmbedding` entries of the student's school, in collection order;
3. skips entries without a `vectorgallery` embedding;
4. scores every other entry with `cosine_similarity` and keeps it when the score is strictly above `threshold`;
5. upserts a result document for every kept entry into `embeddedGallery`, keyed by (studentId, galleryImageId), with `$set`;
6. answers with the kept matches sorted by similarity, highest first, and their count.

The project has five modules:

- `Records` (records.dfy) holds the documents.
  - A missing embedding and an empty one are both "no embedding", as Python's `not x` treats them (`Present`).
  - A missing `schoolId` is `None`; a query for `None` matches entries whose `schoolId` is also missing.
- `Ranking` (ranking.dfy) models `matches.sort(key=similarity, reverse=True)` as a stable insertion sort. It proves:
  - the output is a permutation of the input;
  - the output is non-increasing;
  - ties keep their input order;
  - these three properties determine the output, so it agrees with Python's stable sort.
- `ResultStore` (result_store.dfy) models the result collection as a map from the key (studentId, galleryImageId) to a document, which is a field-to-value map. It defines `update_one(..., {"$set": doc}, upsert=True)` and a run of such upserts.
- `Matching` (matching.dfy) defines the answer (`FindPhotos`) and the collection after a call (`StoreAfterFind`) as functions of:
  - the student collection;
  - the gallery, in order;
  - the student id;
  - the threshold;
  - the similarity function.

  It also proves what the route promises about both.
- `SortingRouter` (photo_sorter.dfy) holds the class `PhotoSorter`.
  - The student and gallery collections are constant fields; the result collection is a mutable field.
  - `FindStudentPhotos` is the route's own loop. Its invariants tie the loop to the functions above, and its postcondition is that it computes exactly `FindPhotos` and `StoreAfterFind`.

`cosine_similarity` lives in a module that is not part of this model. It is a parameter `sim: (Vector, Vector) -> real`, and the model only compares and sorts the scores it returns. The route's own test case uses unit vectors, where cosine similarity is the dot product (`Dot`).

## Model

| member | source | states |
|---|---|---|
| SortingRouter.PhotoSorter.FindStudentPhotos | routers/sorting.py:36-104 | The loop computes the response `FindPhotos` and leaves the collection at `StoreAfterFind`. Unknown student: 404, nothing compared, store unchanged. No embedding: 400, nothing compared, store unchanged. Only in-school entries with an embedding are ever compared. On success: count = number of matches, studentId and schoolId are echoed, matches are non-increasing and every score is above the threshold. |
| SortingRouter.PhotoSorter.UpdateOne | routers/sorting.py:90-94 | `$set` upsert under (studentId, galleryImageId): the key is present afterwards; every given field holds its value; the document's other fields are kept; every other key is unchanged; the store stays keyed. |
| SortingRouter.PhotoSorter.constructor | routers/sorting.py:23-28 | The three collections become the object's state; the result collection must already be keyed. |
| SortingRouter.RunScenario | tests/test_sorting.py:19-67 | The test case run against the class. Student "123" gets exactly the match img1 (score 1, count 1). Student "999" gets Err(StudentNotFound), status 404. The collection ends with the single key ("123", "img1"). |
| SortingRouter.Dot | tests/test_sorting.py:27-29 | Defines the dot product, which stands in for cosine similarity on the test's unit vectors; ScenarioScores evaluates it. |
| SortingRouter.SingleMatchScenario | tests/test_sorting.py:19-67 | Student [1, 0] against images [1, 0] and [0, 1] of the same school: for every threshold 0 <= t < 1 (the default 0.1 included), the only match is img1 with score 1 and count 1. Only the key ("123", "img1") is written. Student "999" is not found. |
| SortingRouter.ScenarioKept | tests/test_sorting.py:28-51 | In the test case only img1 is kept, for every threshold 0 <= t < 1. |
| SortingRouter.ScenarioStore | tests/test_sorting.py:56-60 | In the test case the one upsert writes the key ("123", "img1") and nothing else. |
| SortingRouter.ScenarioScores | tests/test_sorting.py:27-29 | The identical image scores 1 and the orthogonal one 0. |
| Matching.FindPhotos | routers/sorting.py:36-104 | Defines the response: an unknown student gives Err(StudentNotFound); a missing or empty embedding gives Err(NoEmbedding); otherwise Ok with the studentId, the student's schoolId, the kept entries' matches sorted by SortBySimilarity, and their count. Its properties are FailedCalls, MatchesAreTheQualifyingEntries and MatchesRanked. |
| Matching.StoreAfterFind | routers/sorting.py:79-94 | Defines the result collection after a call: unchanged on both failures, otherwise the kept entries' upserts applied in gallery order. Its properties are StoreHoldsEachMatch, StoreFrame, StoreIdempotent and StoreStaysKeyed. |
| Matching.InSchool | routers/sorting.py:53-54 | Defines `find({"schoolId": school})` over the gallery in collection order, with Option equality for a missing schoolId. It keeps no more entries than the gallery has; InSchoolMembers gives its membership in both directions. |
| Matching.Qualifies | routers/sorting.py:60-69 | Defines the keep test: a non-empty embedding and a score strictly above the threshold. |
| Matching.Qualifying | routers/sorting.py:59-69 | Defines the entries the loop keeps, in gallery order. Every kept entry is in the input and qualifies; QualifyingMembers gives the converse. |
| Matching.KeptFor | routers/sorting.py:53-69 | Defines the kept entries for a student as the threshold filter after the school filter. They all have an embedding. |
| Matching.MatchOf | routers/sorting.py:70-74 | Defines the match of an entry: its imageUrl, its score and its id. |
| Matching.MatchesOf | routers/sorting.py:70-75 | Defines the unsorted `matches` list: one match per kept entry, same length, in gallery order (pointwise in MatchesOfAt). |
| Matching.ResultDoc | routers/sorting.py:79-87 | Defines the seven-field document `$set` for a kept entry. |
| Matching.UpsertsOf | routers/sorting.py:88-94 | Defines the upserts the loop issues: one per kept entry, same length, in gallery order (pointwise in UpsertsOfAt). |
| Matching.FailedCalls | routers/sorting.py:42-50 | An unknown student gives Err(StudentNotFound), status 404. A student whose embedding is missing or empty gives Err(NoEmbedding), status 400. These are the only failures, and both leave the result collection unchanged. |
| Matching.InSchoolMembers | routers/sorting.py:47-54 | An entry is in the gallery query's result iff it is in the gallery and its schoolId equals the student's (both missing counts as equal). |
| Matching.QualifyingMembers | routers/sorting.py:59-69 | An entry is kept iff it has a non-empty embedding and its score is strictly above the threshold. |
| Matching.KeptMembers | routers/sorting.py:53-69 | The kept entries are exactly the in-school entries with an embedding that score above the threshold. |
| Matching.MatchesAreTheQualifyingEntries | routers/sorting.py:59-75 | A match is in the response iff it is the (imageUrl, score, id) of an in-school entry that has an embedding and scores strictly above the threshold. So every returned score exceeds the threshold, and an entry scoring exactly the threshold is excluded. |
| Matching.MatchFromKeptEntry | routers/sorting.py:69-75 | Each returned match is built from a qualifying in-school entry, and its score is above the threshold. |
| Matching.KeptEntryHasMatch | routers/sorting.py:69-75 | Each qualifying in-school entry's match is returned. |
| Matching.EachQualifyingEntryOnce | routers/sorting.py:69-75 | With unique gallery ids, each qualifying entry's match occurs exactly once among the returned matches. |
| Matching.MatchesRanked | routers/sorting.py:97-104 | The returned matches: are non-increasing; are a permutation of the kept entries' matches in gallery order; keep gallery order within equal scores (stability). Also: count = number of matches = number of kept entries; the schoolId is the student's; studentId is echoed. |
| Matching.IgnoredEntryNotKept | routers/sorting.py:53-69 | Inserting anywhere in the gallery an entry that is from another school, or lacks an embedding, or scores at or below the threshold leaves the kept list unchanged. |
| Matching.IgnoredEntryChangesNothing | routers/sorting.py:53-69 | Such an entry changes neither the response nor the result collection. |
| Matching.StoreHoldsEachMatch | routers/sorting.py:79-94 | With unique gallery ids, after the call the key (studentId, id) of every qualifying entry holds the old document (if any) with the seven fields of the result document set: studentId, schoolId, galleryImageId, imageUrl, similarity, studentVector, galleryVector. |
| Matching.StoreFrame | routers/sorting.py:88-94 | Every key other than (studentId, id of a qualifying entry) keeps its document, or stays absent. |
| Matching.StoreIdempotent | routers/sorting.py:88-94 | Running the call twice on unchanged inputs leaves the collection as one run does. |
| Matching.StoreStaysKeyed | routers/sorting.py:79-94 | Every stored document still carries its own studentId and galleryImageId. |
| Matching.InSchoolAppend | routers/sorting.py:53-54 | The school filter distributes over concatenation of galleries. |
| Matching.QualifyingAppend | routers/sorting.py:59-69 | The threshold filter distributes over concatenation. |
| Matching.StepSkipped | routers/sorting.py:60-63 | A skipped entry leaves the kept list as it was. |
| Matching.StepKept | routers/sorting.py:69-94 | A kept entry extends the kept list, the matches and the upserts by its own contribution. |
| Matching.ResultDocCarriesKey | routers/sorting.py:79-91 | The result document holds the studentId and galleryImageId it is upserted under. |
| Matching.MatchesOfAt | routers/sorting.py:70-75 | The i-th unsorted match is the i-th kept entry's (imageUrl, score, id). |
| Matching.UpsertsOfAt | routers/sorting.py:79-94 | The i-th upsert writes the i-th kept entry's result document under (studentId, its id). |
| Matching.InSchoolKeepsUniqueIds | routers/sorting.py:53-54 | The school filter keeps gallery ids unique. |
| Matching.QualifyingKeepsUniqueIds | routers/sorting.py:59-69 | The threshold filter keeps gallery ids unique. |
| Ranking.SortBySimilarity | routers/sorting.py:97 | The ranked list is a permutation of the matches and is non-increasing in similarity. |
| Ranking.Insert | routers/sorting.py:97 | Inserting adds exactly one occurrence of the match. |
| Ranking.InsertKeepsOrder | routers/sorting.py:97 | Inserting into a non-increasing list keeps it non-increasing. |
| Ranking.SortKeepsTies | routers/sorting.py:97 | Stability: for every score, the matches with that score appear in input order. |
| Ranking.TiesDetermineOrder | routers/sorting.py:97 | Two non-increasing lists that agree on the matches of every score are equal. |
| Ranking.StableSortIsUnique | routers/sorting.py:97 | Any non-increasing list whose ties keep input order is `SortBySimilarity` of the input, so the model's sort agrees with Python's stable `list.sort(reverse=True)`. |
| ResultStore.SetUpsert | routers/sorting.py:90-94 | Defines one `update_one(filter, {"$set": fields}, upsert=True)`: merge the fields into the document under the key, or insert them as a new document. SetUpsertMeaning states what that means. |
| ResultStore.ApplyUpserts | routers/sorting.py:59-94 | Defines the loop's upserts applied first to last. WrittenKey, UntouchedKey and ApplyUpsertsKeys characterise it key by key. |
| ResultStore.Overrides | routers/sorting.py:90-94 | Defines all fields set under one key by a run of upserts, the later write winning. WrittenKey relates it to ApplyUpserts. |
| ResultStore.SetUpsertMeaning | routers/sorting.py:90-94 | `$set` with upsert: the key is present; its fields are the old document's plus the given ones; the given fields hold the given values; the other old fields are kept; other keys are unchanged. |
| ResultStore.UntouchedKey | routers/sorting.py:90-94 | A key no upsert writes keeps its document, or stays absent. |
| ResultStore.WrittenKey | routers/sorting.py:90-94 | A key some upsert writes holds the old document overwritten by every field set under it, the last write winning. |
| ResultStore.ApplyUpsertsKeys | routers/sorting.py:90-94 | After a run of upserts the keys are the old keys plus the written keys. |
| ResultStore.ApplyUpsertsIdempotent | routers/sorting.py:90-94 | Repeating a run of upserts changes nothing. |
| ResultStore.SingleWriter | routers/sorting.py:90-94 | A key written by exactly one upsert holds the old document with that upsert's fields overwritten. |
| ResultStore.OverridesSingle | routers/sorting.py:90-94 | The fields written under a key that has one writer are that writer's fields. |
| ResultStore.ApplyUpsertsKeepsKeyed | routers/sorting.py:79-94 | Upserting documents that carry their keys keeps the store keyed. |

## Left out

- Embedding choice and default threshold:
  - the code reads a single `vectorgallery` embedding per image (routers/sorting.py:60) and takes no maximum over several embeddings, so none is modelled;
  - the default threshold is 0.1 (routers/sorting.py:37). The test's comment "threshold 0.5" (tests/test_sorting.py:51) does not match the code. The threshold is a parameter, and the scenario is proved for every threshold in [0, 1).
- MongoDB client setup, the collection handles and their connection error handling (routers/sorting.py:11-30): the collections are in-memory values held by `PhotoSorter`.
- `find_one` on a collection with several documents for one studentId: the student collection is a map, so a student id has at most one record.
- FastAPI routing, form parsing, `HTTPException`/`JSONResponse` wrapping, the Jinja template and `get_sorting_ui` (routers/sorting.py:32-34): failures are the `Failure` datatype with their status codes.
- `cosine_similarity` (the `utils` module is not part of this model) and all floating-point behaviour (rounding, NaN): scores are exact reals returned by the `sim` parameter.
- The debug `print` calls (routers/sorting.py:55, 62, 67): they are output only.
- Exceptions from `update_one` partway through the loop: the code has no policy for them, so upserts are total.
- Exceptions from `cosine_similarity` partway through the loop, for example on vectors of different lengths, which routers/sorting.py:66 does not guard against: `sim` is total. In the code such a request aborts after the upserts it has already made; the model does not capture that partial state.
- The `_id` that MongoDB generates for an inserted result document, and the query fields it copies into a new document: each new document is exactly the `$set` fields, which already contain both key fields.
- `str(img.get("_id"))`: a gallery entry's `id` is already the string form of its `_id`.
- JSON serialisation of the response (`student_id`/`school_id` names, float formatting).
- bulk_enroll.py (image download, the face engine, the SQL session), static/js/sorting.js (browser UI) and the tests themselves: they are not part of this model. The route's test case is restated as `SingleMatchScenario`.
