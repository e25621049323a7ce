/**
 * What one call of the `/sorting/find` route answers and what it leaves in
 * the result collection, as functions of the student collection, the gallery
 * collection (in the order the gallery query yields it), the student id, the
 * threshold and the similarity function, and the properties of both.
 *
 * The similarity function (`cosine_similarity`, computed in floats) is a
 * parameter: the model only compares and sorts the scores it returns.
 */
module Matching {
  import opened Records
  import opened Ranking
  import opened ResultStore

  /** The threshold the route uses when the request gives none. */
  const DefaultThreshold: real := 0.1

  /** A score for a student embedding against a gallery embedding. */
  type Similarity = (Vector, Vector) -> real

  /** The gallery query `find({"schoolId": school})`, in collection order. */
  function InSchool(gallery: seq<GalleryEntry>, school: Option<string>): (r: seq<GalleryEntry>)
    ensures |r| <= |gallery|
  {
    if gallery == [] then []
    else
      var last := gallery[|gallery| - 1];
      var init := gallery[..|gallery| - 1];
      InSchool(init, school) + (if last.schoolId == school then [last] else [])
  }

  /** An entry is kept when it has an embedding and scores strictly above the threshold. */
  predicate Qualifies(e: GalleryEntry, sv: Vector, threshold: real, sim: Similarity)
  {
    Present(e.vectorgallery) && sim(sv, e.vectorgallery.value) > threshold
  }

  /** The entries the gallery loop keeps, in the order it meets them. */
  function Qualifying(entries: seq<GalleryEntry>, sv: Vector, threshold: real, sim: Similarity): (q: seq<GalleryEntry>)
    ensures |q| <= |entries|
    ensures forall e :: e in q ==> e in entries && Qualifies(e, sv, threshold, sim)
  {
    if entries == [] then []
    else
      var last := entries[|entries| - 1];
      var init := entries[..|entries| - 1];
      assert forall e :: e in init ==> e in entries;
      Qualifying(init, sv, threshold, sim) + (if Qualifies(last, sv, threshold, sim) then [last] else [])
  }

  /** The score of an entry that has an embedding. */
  function Score(e: GalleryEntry, sv: Vector, sim: Similarity): real
    requires Present(e.vectorgallery)
  {
    sim(sv, e.vectorgallery.value)
  }

  /** The element of `matches` an entry contributes. */
  function MatchOf(e: GalleryEntry, sv: Vector, sim: Similarity): Match
    requires Present(e.vectorgallery)
  {
    Match(e.imageUrl, Score(e, sv, sim), e.id)
  }

  /** The fields the route `$set`s for a kept entry. */
  function ResultDoc(studentId: string, school: Option<string>, sv: Vector, e: GalleryEntry, score: real): Document
    requires Present(e.vectorgallery)
  {
    map[
      "studentId" := Str(studentId),
      "schoolId" := OptStr(school),
      "galleryImageId" := Str(e.id),
      "imageUrl" := OptStr(e.imageUrl),
      "similarity" := Num(score),
      "studentVector" := Vec(sv),
      "galleryVector" := Vec(e.vectorgallery.value)
    ]
  }

  predicate AllPresent(q: seq<GalleryEntry>)
  {
    forall e :: e in q ==> Present(e.vectorgallery)
  }

  /** The `matches` list before sorting: one match per kept entry, in gallery order. */
  function MatchesOf(q: seq<GalleryEntry>, sv: Vector, sim: Similarity): (ms: seq<Match>)
    requires AllPresent(q)
    ensures |ms| == |q|
  {
    if q == [] then []
    else
      var init := q[..|q| - 1];
      assert forall e :: e in init ==> e in q;
      MatchesOf(init, sv, sim) + [MatchOf(q[|q| - 1], sv, sim)]
  }

  /** The upserts the loop issues: one per kept entry, in gallery order. */
  function UpsertsOf(studentId: string, school: Option<string>, sv: Vector, q: seq<GalleryEntry>, sim: Similarity)
    : (ups: seq<(ResultKey, Document)>)
    requires AllPresent(q)
    ensures |ups| == |q|
  {
    if q == [] then []
    else
      var init := q[..|q| - 1];
      var e := q[|q| - 1];
      assert forall x :: x in init ==> x in q;
      UpsertsOf(studentId, school, sv, init, sim)
      + [((studentId, e.id), ResultDoc(studentId, school, sv, e, Score(e, sv, sim)))]
  }

  lemma {:induction false} MatchesOfAt(q: seq<GalleryEntry>, sv: Vector, sim: Similarity)
    requires AllPresent(q)
    ensures forall i :: 0 <= i < |q| ==> MatchesOf(q, sv, sim)[i] == MatchOf(q[i], sv, sim)
    decreases |q|
  {
    if q != [] {
      var init := q[..|q| - 1];
      assert forall e :: e in init ==> e in q;
      MatchesOfAt(init, sv, sim);
      assert forall i :: 0 <= i < |init| ==> init[i] == q[i];
    }
  }

  lemma {:induction false} UpsertsOfAt(studentId: string, school: Option<string>, sv: Vector, q: seq<GalleryEntry>, sim: Similarity)
    requires AllPresent(q)
    ensures forall i :: 0 <= i < |q| ==>
      UpsertsOf(studentId, school, sv, q, sim)[i]
      == ((studentId, q[i].id), ResultDoc(studentId, school, sv, q[i], Score(q[i], sv, sim)))
    decreases |q|
  {
    if q != [] {
      var init := q[..|q| - 1];
      assert forall e :: e in init ==> e in q;
      UpsertsOfAt(studentId, school, sv, init, sim);
      assert forall i :: 0 <= i < |init| ==> init[i] == q[i];
    }
  }

  /** The entries kept for a student who has an embedding. */
  function KeptFor(gallery: seq<GalleryEntry>, st: StudentRec, threshold: real, sim: Similarity): (q: seq<GalleryEntry>)
    requires Present(st.vectorEmbedding)
    ensures AllPresent(q)
  {
    Qualifying(InSchool(gallery, st.schoolId), st.vectorEmbedding.value, threshold, sim)
  }

  /** The response of one call of the route. */
  function FindPhotos(
    students: map<string, StudentRec>, gallery: seq<GalleryEntry>,
    studentId: string, threshold: real, sim: Similarity): Result<Response>
  {
    if studentId !in students then Err(StudentNotFound)
    else
      var st := students[studentId];
      if !Present(st.vectorEmbedding) then Err(NoEmbedding)
      else
        var sv := st.vectorEmbedding.value;
        var ranked := SortBySimilarity(MatchesOf(KeptFor(gallery, st, threshold, sim), sv, sim));
        Ok(Response(studentId, st.schoolId, ranked, |ranked|))
  }

  /** The result collection after one call of the route. */
  function StoreAfterFind(
    store: Store, students: map<string, StudentRec>, gallery: seq<GalleryEntry>,
    studentId: string, threshold: real, sim: Similarity): Store
  {
    if studentId !in students || !Present(students[studentId].vectorEmbedding) then store
    else
      var st := students[studentId];
      var q := KeptFor(gallery, st, threshold, sim);
      ApplyUpserts(store, UpsertsOf(studentId, st.schoolId, st.vectorEmbedding.value, q, sim))
  }

  // ---------------------------------------------------------------------
  // The filters
  // ---------------------------------------------------------------------

  lemma {:induction false} InSchoolMembers(gallery: seq<GalleryEntry>, school: Option<string>, e: GalleryEntry)
    ensures e in InSchool(gallery, school) <==> e in gallery && e.schoolId == school
    decreases |gallery|
  {
    if gallery != [] {
      var init := gallery[..|gallery| - 1];
      assert gallery == init + [gallery[|gallery| - 1]];
      InSchoolMembers(init, school, e);
    }
  }

  lemma {:induction false} QualifyingMembers(entries: seq<GalleryEntry>, sv: Vector, threshold: real, sim: Similarity, e: GalleryEntry)
    ensures e in Qualifying(entries, sv, threshold, sim) <==> e in entries && Qualifies(e, sv, threshold, sim)
    decreases |entries|
  {
    if entries != [] {
      var init := entries[..|entries| - 1];
      assert entries == init + [entries[|entries| - 1]];
      QualifyingMembers(init, sv, threshold, sim, e);
    }
  }

  lemma {:induction false} InSchoolAppend(a: seq<GalleryEntry>, b: seq<GalleryEntry>, school: Option<string>)
    ensures InSchool(a + b, school) == InSchool(a, school) + InSchool(b, school)
    decreases |b|
  {
    if b == [] {
      assert a + b == a;
    } else {
      var binit, last := b[..|b| - 1], b[|b| - 1];
      var t := if last.schoolId == school then [last] else [];
      assert (a + b)[..|a + b| - 1] == a + binit && (a + b)[|a + b| - 1] == last;
      assert InSchool(a + b, school) == InSchool(a + binit, school) + t;
      InSchoolAppend(a, binit, school);
      assert InSchool(b, school) == InSchool(binit, school) + t;
    }
  }

  lemma {:induction false} QualifyingAppend(a: seq<GalleryEntry>, b: seq<GalleryEntry>, sv: Vector, threshold: real, sim: Similarity)
    ensures Qualifying(a + b, sv, threshold, sim) == Qualifying(a, sv, threshold, sim) + Qualifying(b, sv, threshold, sim)
    decreases |b|
  {
    if b == [] {
      assert a + b == a;
    } else {
      var binit, last := b[..|b| - 1], b[|b| - 1];
      var t := if Qualifies(last, sv, threshold, sim) then [last] else [];
      assert (a + b)[..|a + b| - 1] == a + binit && (a + b)[|a + b| - 1] == last;
      assert Qualifying(a + b, sv, threshold, sim) == Qualifying(a + binit, sv, threshold, sim) + t;
      QualifyingAppend(a, binit, sv, threshold, sim);
      assert Qualifying(b, sv, threshold, sim) == Qualifying(binit, sv, threshold, sim) + t;
    }
  }

  /** One more gallery entry seen by the loop, which does not keep it: the kept list stays. */
  lemma StepSkipped(entries: seq<GalleryEntry>, i: nat, sv: Vector, threshold: real, sim: Similarity)
    requires i < |entries| && !Qualifies(entries[i], sv, threshold, sim)
    ensures Qualifying(entries[..i + 1], sv, threshold, sim) == Qualifying(entries[..i], sv, threshold, sim)
  {
    assert entries[..i + 1][..i] == entries[..i];
  }

  /**
   * One more gallery entry seen by the loop, which keeps it: the kept list,
   * the matches and the upserts each grow by that entry's contribution.
   */
  lemma StepKept(studentId: string, school: Option<string>, entries: seq<GalleryEntry>, i: nat,
                 sv: Vector, threshold: real, sim: Similarity)
    requires i < |entries| && Qualifies(entries[i], sv, threshold, sim)
    ensures var q, e := Qualifying(entries[..i], sv, threshold, sim), entries[i];
      && Qualifying(entries[..i + 1], sv, threshold, sim) == q + [e]
      && MatchesOf(q + [e], sv, sim) == MatchesOf(q, sv, sim) + [MatchOf(e, sv, sim)]
      && UpsertsOf(studentId, school, sv, q + [e], sim)
         == UpsertsOf(studentId, school, sv, q, sim)
            + [((studentId, e.id), ResultDoc(studentId, school, sv, e, Score(e, sv, sim)))]
  {
    assert entries[..i + 1][..i] == entries[..i];
    var q := Qualifying(entries[..i], sv, threshold, sim);
    assert (q + [entries[i]])[..|q|] == q;
  }

  lemma ResultDocCarriesKey(studentId: string, school: Option<string>, sv: Vector, e: GalleryEntry, score: real)
    requires Present(e.vectorgallery)
    ensures CarriesKey((studentId, e.id), ResultDoc(studentId, school, sv, e, score))
  {
  }

  // ---------------------------------------------------------------------
  // The response
  // ---------------------------------------------------------------------

  /**
   * The two failure exits: an unknown student is answered with 404 and a
   * student without an embedding with 400; neither touches the result
   * collection. Every other call succeeds.
   */
  lemma FailedCalls(
    store: Store, students: map<string, StudentRec>, gallery: seq<GalleryEntry>,
    studentId: string, threshold: real, sim: Similarity)
    ensures var r := FindPhotos(students, gallery, studentId, threshold, sim);
      && (studentId !in students ==> r == Err(StudentNotFound) && r.failure.StatusCode() == 404)
      && (studentId in students && !Present(students[studentId].vectorEmbedding) ==>
            r == Err(NoEmbedding) && r.failure.StatusCode() == 400)
      && (r.Err? <==> studentId !in students || !Present(students[studentId].vectorEmbedding))
      && (r.Err? ==> StoreAfterFind(store, students, gallery, studentId, threshold, sim) == store)
  {
  }

  /** The kept entries are exactly the gallery entries of the school that qualify. */
  lemma KeptMembers(gallery: seq<GalleryEntry>, st: StudentRec, threshold: real, sim: Similarity, e: GalleryEntry)
    requires Present(st.vectorEmbedding)
    ensures e in KeptFor(gallery, st, threshold, sim) <==>
      e in gallery && e.schoolId == st.schoolId && Qualifies(e, st.vectorEmbedding.value, threshold, sim)
  {
    InSchoolMembers(gallery, st.schoolId, e);
    QualifyingMembers(InSchool(gallery, st.schoolId), st.vectorEmbedding.value, threshold, sim, e);
  }

  /** Every match of a response comes from a kept entry. */
  lemma MatchFromKeptEntry(gallery: seq<GalleryEntry>, st: StudentRec, threshold: real, sim: Similarity, m: Match)
    requires Present(st.vectorEmbedding)
    requires m in SortBySimilarity(MatchesOf(KeptFor(gallery, st, threshold, sim), st.vectorEmbedding.value, sim))
    ensures exists e :: e in gallery && e.schoolId == st.schoolId && Qualifies(e, st.vectorEmbedding.value, threshold, sim)
                     && m == MatchOf(e, st.vectorEmbedding.value, sim)
    ensures m.similarity > threshold
  {
    var sv := st.vectorEmbedding.value;
    var q := KeptFor(gallery, st, threshold, sim);
    var unranked := MatchesOf(q, sv, sim);
    assert m in multiset(SortBySimilarity(unranked));
    assert m in unranked;
    MatchesOfAt(q, sv, sim);
    var i :| 0 <= i < |unranked| && unranked[i] == m;
    var e := q[i];
    KeptMembers(gallery, st, threshold, sim, e);
    assert m == MatchOf(e, sv, sim);
  }

  /** Every kept entry has its match in the response. */
  lemma KeptEntryHasMatch(gallery: seq<GalleryEntry>, st: StudentRec, threshold: real, sim: Similarity, e: GalleryEntry)
    requires Present(st.vectorEmbedding)
    requires e in gallery && e.schoolId == st.schoolId && Qualifies(e, st.vectorEmbedding.value, threshold, sim)
    ensures MatchOf(e, st.vectorEmbedding.value, sim)
            in SortBySimilarity(MatchesOf(KeptFor(gallery, st, threshold, sim), st.vectorEmbedding.value, sim))
  {
    var sv := st.vectorEmbedding.value;
    var q := KeptFor(gallery, st, threshold, sim);
    var unranked := MatchesOf(q, sv, sim);
    KeptMembers(gallery, st, threshold, sim, e);
    MatchesOfAt(q, sv, sim);
    var i :| 0 <= i < |q| && q[i] == e;
    assert unranked[i] == MatchOf(e, sv, sim);
    assert MatchOf(e, sv, sim) in multiset(unranked);
  }

  /**
   * A found student with an embedding gets a response whose matches are
   * exactly the matches of the gallery entries of the student's school that
   * have an embedding and score strictly above the threshold; so every match
   * scores above the threshold, and an entry scoring exactly the threshold is
   * not among them.
   */
  lemma MatchesAreTheQualifyingEntries(
    students: map<string, StudentRec>, gallery: seq<GalleryEntry>,
    studentId: string, threshold: real, sim: Similarity)
    requires studentId in students && Present(students[studentId].vectorEmbedding)
    ensures var st := students[studentId];
      var sv := st.vectorEmbedding.value;
      var r := FindPhotos(students, gallery, studentId, threshold, sim);
      && r.Ok?
      && (forall m :: m in r.value.matches ==> m.similarity > threshold)
      && (forall m :: m in r.value.matches <==>
            exists e :: e in gallery && e.schoolId == st.schoolId && Qualifies(e, sv, threshold, sim)
                     && m == MatchOf(e, sv, sim))
  {
    var st := students[studentId];
    var sv := st.vectorEmbedding.value;
    var ranked := FindPhotos(students, gallery, studentId, threshold, sim).value.matches;
    forall m | m in ranked
      ensures m.similarity > threshold
      ensures exists e :: e in gallery && e.schoolId == st.schoolId && Qualifies(e, sv, threshold, sim)
                       && m == MatchOf(e, sv, sim)
    {
      MatchFromKeptEntry(gallery, st, threshold, sim, m);
    }
    forall e | e in gallery && e.schoolId == st.schoolId && Qualifies(e, sv, threshold, sim)
      ensures MatchOf(e, sv, sim) in ranked
    {
      KeptEntryHasMatch(gallery, st, threshold, sim, e);
    }
  }

  /**
   * The matches are ranked by similarity, highest first; they are a
   * permutation of the kept entries' matches in gallery order, and matches
   * with the same score keep their gallery order (the sort is stable).
   */
  lemma MatchesRanked(
    students: map<string, StudentRec>, gallery: seq<GalleryEntry>,
    studentId: string, threshold: real, sim: Similarity)
    requires studentId in students && Present(students[studentId].vectorEmbedding)
    ensures var st := students[studentId];
      var unranked := MatchesOf(KeptFor(gallery, st, threshold, sim), st.vectorEmbedding.value, sim);
      var r := FindPhotos(students, gallery, studentId, threshold, sim);
      && r.Ok?
      && NonIncreasing(r.value.matches)
      && multiset(r.value.matches) == multiset(unranked)
      && (forall v :: WithScore(r.value.matches, v) == WithScore(unranked, v))
      && r.value.count == |r.value.matches| == |unranked|
      && r.value.schoolId == st.schoolId
      && r.value.studentId == studentId
  {
    var st := students[studentId];
    var unranked := MatchesOf(KeptFor(gallery, st, threshold, sim), st.vectorEmbedding.value, sim);
    forall v ensures WithScore(SortBySimilarity(unranked), v) == WithScore(unranked, v) {
      SortKeepsTies(unranked, v);
    }
    assert |multiset(SortBySimilarity(unranked))| == |multiset(unranked)|;
  }

  /** No two gallery documents share an `_id`. */
  ghost predicate UniqueIds(entries: seq<GalleryEntry>)
  {
    forall i, j :: 0 <= i < j < |entries| ==> entries[i].id != entries[j].id
  }

  lemma {:induction false} InSchoolKeepsUniqueIds(gallery: seq<GalleryEntry>, school: Option<string>)
    requires UniqueIds(gallery)
    ensures UniqueIds(InSchool(gallery, school))
    decreases |gallery|
  {
    if gallery != [] {
      var init := gallery[..|gallery| - 1];
      var last := gallery[|gallery| - 1];
      assert UniqueIds(init) by {
        forall i, j | 0 <= i < j < |init| ensures init[i].id != init[j].id {
          assert init[i] == gallery[i] && init[j] == gallery[j];
        }
      }
      InSchoolKeepsUniqueIds(init, school);
      forall x | x in InSchool(init, school) ensures x.id != last.id {
        InSchoolMembers(init, school, x);
        var k :| 0 <= k < |init| && init[k] == x;
        assert gallery[k] == x;
      }
    }
  }

  lemma {:induction false} QualifyingKeepsUniqueIds(entries: seq<GalleryEntry>, sv: Vector, threshold: real, sim: Similarity)
    requires UniqueIds(entries)
    ensures UniqueIds(Qualifying(entries, sv, threshold, sim))
    decreases |entries|
  {
    if entries != [] {
      var init := entries[..|entries| - 1];
      var last := entries[|entries| - 1];
      assert UniqueIds(init) by {
        forall i, j | 0 <= i < j < |init| ensures init[i].id != init[j].id {
          assert init[i] == entries[i] && init[j] == entries[j];
        }
      }
      QualifyingKeepsUniqueIds(init, sv, threshold, sim);
      forall x | x in Qualifying(init, sv, threshold, sim) ensures x.id != last.id {
        var k :| 0 <= k < |init| && init[k] == x;
        assert entries[k] == x;
      }
    }
  }

  lemma KeptHaveUniqueIds(gallery: seq<GalleryEntry>, st: StudentRec, threshold: real, sim: Similarity)
    requires UniqueIds(gallery) && Present(st.vectorEmbedding)
    ensures UniqueIds(KeptFor(gallery, st, threshold, sim))
  {
    InSchoolKeepsUniqueIds(gallery, st.schoolId);
    QualifyingKeepsUniqueIds(InSchool(gallery, st.schoolId), st.vectorEmbedding.value, threshold, sim);
  }

  /** In a sequence of matches with distinct gallery ids, each present match occurs once. */
  lemma {:induction false} OccursOnce(ms: seq<Match>, m: Match)
    requires forall i, j :: 0 <= i < j < |ms| ==> ms[i].galleryId != ms[j].galleryId
    requires m in ms
    ensures multiset(ms)[m] == 1
    decreases |ms|
  {
    var rest := ms[1..];
    assert ms == [ms[0]] + rest;
    forall i, j | 0 <= i < j < |rest| ensures rest[i].galleryId != rest[j].galleryId {
      assert rest[i] == ms[i + 1] && rest[j] == ms[j + 1];
    }
    if m == ms[0] {
      forall k | 0 <= k < |rest| ensures rest[k] != m {
        assert rest[k].galleryId != ms[0].galleryId;
      }
      assert multiset(rest)[m] == 0;
    } else {
      OccursOnce(rest, m);
    }
  }

  /**
   * When gallery ids are unique, each qualifying entry of the student's
   * school appears exactly once among the matches.
   */
  lemma EachQualifyingEntryOnce(
    students: map<string, StudentRec>, gallery: seq<GalleryEntry>,
    studentId: string, threshold: real, sim: Similarity, e: GalleryEntry)
    requires UniqueIds(gallery)
    requires studentId in students && Present(students[studentId].vectorEmbedding)
    requires e in gallery && e.schoolId == students[studentId].schoolId
    requires Qualifies(e, students[studentId].vectorEmbedding.value, threshold, sim)
    ensures var r := FindPhotos(students, gallery, studentId, threshold, sim);
      r.Ok? && multiset(r.value.matches)[MatchOf(e, students[studentId].vectorEmbedding.value, sim)] == 1
  {
    var st := students[studentId];
    var sv := st.vectorEmbedding.value;
    var q := KeptFor(gallery, st, threshold, sim);
    var unranked := MatchesOf(q, sv, sim);
    MatchesOfAt(q, sv, sim);
    KeptHaveUniqueIds(gallery, st, threshold, sim);
    InSchoolMembers(gallery, st.schoolId, e);
    QualifyingMembers(InSchool(gallery, st.schoolId), sv, threshold, sim, e);
    var i :| 0 <= i < |q| && q[i] == e;
    assert unranked[i] == MatchOf(e, sv, sim);
    OccursOnce(unranked, MatchOf(e, sv, sim));
  }

  /**
   * An entry that is not kept, because it belongs to another school, has no
   * embedding, or scores at or below the threshold, leaves the kept entries
   * unchanged, wherever it stands in the gallery.
   */
  lemma IgnoredEntryNotKept(
    gallery: seq<GalleryEntry>, st: StudentRec, threshold: real, sim: Similarity, at: nat, e: GalleryEntry)
    requires at <= |gallery| && Present(st.vectorEmbedding)
    requires e.schoolId != st.schoolId || !Qualifies(e, st.vectorEmbedding.value, threshold, sim)
    ensures KeptFor(gallery[..at] + [e] + gallery[at..], st, threshold, sim) == KeptFor(gallery, st, threshold, sim)
  {
    var sv := st.vectorEmbedding.value;
    var a, b := gallery[..at], gallery[at..];
    assert gallery == a + b;
    var ia, ie, ib := InSchool(a, st.schoolId), InSchool([e], st.schoolId), InSchool(b, st.schoolId);
    InSchoolAppend(a + [e], b, st.schoolId);
    InSchoolAppend(a, [e], st.schoolId);
    InSchoolAppend(a, b, st.schoolId);
    assert InSchool(a + [e] + b, st.schoolId) == ia + ie + ib;
    assert InSchool(gallery, st.schoolId) == ia + ib;
    assert [e][..0] == [];
    assert Qualifying(ie, sv, threshold, sim) == [] by {
      if ie != [] {
        assert ie == [e] && ie[..0] == [];
      }
    }
    QualifyingAppend(ia + ie, ib, sv, threshold, sim);
    QualifyingAppend(ia, ie, sv, threshold, sim);
    QualifyingAppend(ia, ib, sv, threshold, sim);
    assert Qualifying(ia + ie, sv, threshold, sim) == Qualifying(ia, sv, threshold, sim);
  }

  /**
   * An entry that is not kept, because it belongs to another school, has no
   * embedding, or scores at or below the threshold, changes neither the
   * response nor the result collection, wherever it stands in the gallery.
   */
  lemma IgnoredEntryChangesNothing(
    store: Store, students: map<string, StudentRec>, gallery: seq<GalleryEntry>,
    studentId: string, threshold: real, sim: Similarity, at: nat, e: GalleryEntry)
    requires at <= |gallery|
    requires studentId in students && Present(students[studentId].vectorEmbedding) ==>
      e.schoolId != students[studentId].schoolId
      || !Qualifies(e, students[studentId].vectorEmbedding.value, threshold, sim)
    ensures var g := gallery[..at] + [e] + gallery[at..];
      && FindPhotos(students, g, studentId, threshold, sim) == FindPhotos(students, gallery, studentId, threshold, sim)
      && StoreAfterFind(store, students, g, studentId, threshold, sim)
         == StoreAfterFind(store, students, gallery, studentId, threshold, sim)
  {
    if studentId in students && Present(students[studentId].vectorEmbedding) {
      IgnoredEntryNotKept(gallery, students[studentId], threshold, sim, at, e);
    }
  }

  // ---------------------------------------------------------------------
  // The result collection
  // ---------------------------------------------------------------------

  /**
   * After a call, each kept entry's key (studentId, galleryImageId) holds the
   * record that was there (if any) with the seven fields of the route's
   * result document overwritten; with unique gallery ids no other entry
   * writes that key.
   */
  lemma StoreHoldsEachMatch(
    store: Store, students: map<string, StudentRec>, gallery: seq<GalleryEntry>,
    studentId: string, threshold: real, sim: Similarity, e: GalleryEntry)
    requires UniqueIds(gallery)
    requires studentId in students && Present(students[studentId].vectorEmbedding)
    requires e in gallery && e.schoolId == students[studentId].schoolId
    requires Qualifies(e, students[studentId].vectorEmbedding.value, threshold, sim)
    ensures var st := students[studentId];
      var sv := st.vectorEmbedding.value;
      var after := StoreAfterFind(store, students, gallery, studentId, threshold, sim);
      var key := (studentId, e.id);
      && key in after
      && after[key] == Base(store, key) + ResultDoc(studentId, st.schoolId, sv, e, Score(e, sv, sim))
  {
    var st := students[studentId];
    var sv := st.vectorEmbedding.value;
    var q := KeptFor(gallery, st, threshold, sim);
    var ups := UpsertsOf(studentId, st.schoolId, sv, q, sim);
    UpsertsOfAt(studentId, st.schoolId, sv, q, sim);
    KeptHaveUniqueIds(gallery, st, threshold, sim);
    InSchoolMembers(gallery, st.schoolId, e);
    QualifyingMembers(InSchool(gallery, st.schoolId), sv, threshold, sim, e);
    var i :| 0 <= i < |q| && q[i] == e;
    forall j | 0 <= j < |ups| && j != i ensures ups[j].0 != ups[i].0 {
      if j < i {
        assert q[j].id != q[i].id;
      } else {
        assert q[i].id != q[j].id;
      }
    }
    SingleWriter(store, ups, i);
  }

  /**
   * A call leaves every other key alone: a key of another student, or of a
   * gallery image that is not kept, holds what it held before (or stays
   * absent). Failed calls change nothing at all.
   */
  lemma StoreFrame(
    store: Store, students: map<string, StudentRec>, gallery: seq<GalleryEntry>,
    studentId: string, threshold: real, sim: Similarity, key: ResultKey)
    requires studentId in students && Present(students[studentId].vectorEmbedding) ==>
      key.0 != studentId ||
      forall e :: e in gallery && e.schoolId == students[studentId].schoolId
                  && Qualifies(e, students[studentId].vectorEmbedding.value, threshold, sim)
                  ==> e.id != key.1
    ensures var after := StoreAfterFind(store, students, gallery, studentId, threshold, sim);
      && (key in after <==> key in store)
      && (key in store ==> after[key] == store[key])
  {
    if studentId in students && Present(students[studentId].vectorEmbedding) {
      var st := students[studentId];
      var sv := st.vectorEmbedding.value;
      var q := KeptFor(gallery, st, threshold, sim);
      var ups := UpsertsOf(studentId, st.schoolId, sv, q, sim);
      UpsertsOfAt(studentId, st.schoolId, sv, q, sim);
      forall i | 0 <= i < |ups| ensures ups[i].0 != key {
        KeptMembers(gallery, st, threshold, sim, q[i]);
      }
      UntouchedKey(store, ups, key);
    }
  }

  /** Running the same call twice on unchanged inputs leaves the collection as one run does. */
  lemma StoreIdempotent(
    store: Store, students: map<string, StudentRec>, gallery: seq<GalleryEntry>,
    studentId: string, threshold: real, sim: Similarity)
    ensures var once := StoreAfterFind(store, students, gallery, studentId, threshold, sim);
      StoreAfterFind(once, students, gallery, studentId, threshold, sim) == once
  {
    if studentId in students && Present(students[studentId].vectorEmbedding) {
      var st := students[studentId];
      var q := KeptFor(gallery, st, threshold, sim);
      ApplyUpsertsIdempotent(store, UpsertsOf(studentId, st.schoolId, st.vectorEmbedding.value, q, sim));
    }
  }

  /** A call keeps the collection keyed: each record still carries its own key fields. */
  lemma StoreStaysKeyed(
    store: Store, students: map<string, StudentRec>, gallery: seq<GalleryEntry>,
    studentId: string, threshold: real, sim: Similarity)
    requires Keyed(store)
    ensures Keyed(StoreAfterFind(store, students, gallery, studentId, threshold, sim))
  {
    if studentId in students && Present(students[studentId].vectorEmbedding) {
      var st := students[studentId];
      var q := KeptFor(gallery, st, threshold, sim);
      var ups := UpsertsOf(studentId, st.schoolId, st.vectorEmbedding.value, q, sim);
      UpsertsOfAt(studentId, st.schoolId, st.vectorEmbedding.value, q, sim);
      ApplyUpsertsKeepsKeyed(store, ups);
    }
  }
}
