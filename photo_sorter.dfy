/**
 * The `/sorting/find` route of routers/sorting.py as an object over the three
 * collections it uses: the student and gallery collections, which it only
 * reads, and the result collection, which it updates in place one upsert at a
 * time while it scans the gallery.
 */
module SortingRouter {
  import opened Records
  import opened Ranking
  import opened ResultStore
  import opened Matching

  class PhotoSorter {
    /** `studentEmbedding`, looked up by studentId. */
    const studentCol: map<string, StudentRec>
    /** `galleryEmbedding`, in collection order. */
    const galleryCol: seq<GalleryEntry>
    /** `embeddedGallery`, keyed by (studentId, galleryImageId). */
    var resultCol: Store

    ghost predicate Valid()
      reads this
    {
      Keyed(resultCol)
    }

    constructor (students: map<string, StudentRec>, gallery: seq<GalleryEntry>, results: Store)
      requires Keyed(results)
      ensures Valid()
      ensures studentCol == students && galleryCol == gallery && resultCol == results
    {
      studentCol := students;
      galleryCol := gallery;
      resultCol := results;
    }

    /** `result_col.update_one({"studentId": .., "galleryImageId": ..}, {"$set": fields}, upsert=True)` */
    method UpdateOne(key: ResultKey, fields: Document)
      requires Valid()
      requires CarriesKey(key, fields)
      modifies this
      ensures Valid()
      ensures resultCol == SetUpsert(old(resultCol), key, fields)
      ensures resultCol.Keys == old(resultCol).Keys + {key}
      ensures forall f :: f in fields ==> resultCol[key][f] == fields[f]
      ensures key in old(resultCol) ==>
        forall f :: f in old(resultCol)[key] && f !in fields ==> resultCol[key][f] == old(resultCol)[key][f]
      ensures forall k :: k in old(resultCol) && k != key ==> resultCol[k] == old(resultCol)[k]
    {
      SetUpsertMeaning(resultCol, key, fields);
      resultCol := SetUpsert(resultCol, key, fields);
    }

    /**
     * `find_student_photos`: looks the student up, scans the gallery of the
     * student's school, keeps and upserts every entry that has an embedding
     * and scores above the threshold, and answers with the kept matches
     * ranked by score. `compared` lists the entries the similarity function
     * was applied to, in order.
     */
    method FindStudentPhotos(studentId: string, threshold: real, sim: Similarity)
      returns (r: Result<Response>, ghost compared: seq<GalleryEntry>)
      requires Valid()
      modifies this
      ensures Valid()
      ensures r == FindPhotos(studentCol, galleryCol, studentId, threshold, sim)
      ensures resultCol == StoreAfterFind(old(resultCol), studentCol, galleryCol, studentId, threshold, sim)
      ensures studentId !in studentCol ==>
        r == Err(StudentNotFound) && resultCol == old(resultCol) && compared == []
      ensures studentId in studentCol && !Present(studentCol[studentId].vectorEmbedding) ==>
        r == Err(NoEmbedding) && resultCol == old(resultCol) && compared == []
      ensures forall e :: e in compared ==>
        e in galleryCol && e.schoolId == studentCol[studentId].schoolId && Present(e.vectorgallery)
      ensures r.Ok? ==>
        && r.value.studentId == studentId
        && r.value.schoolId == studentCol[studentId].schoolId
        && r.value.count == |r.value.matches|
        && NonIncreasing(r.value.matches)
        && (forall m :: m in r.value.matches ==> m.similarity > threshold)
    {
      compared := [];
      if studentId !in studentCol {
        return Err(StudentNotFound), compared;
      }
      var student := studentCol[studentId];
      var studentEmbedding := student.vectorEmbedding;
      var schoolId := student.schoolId;
      if !Present(studentEmbedding) {
        return Err(NoEmbedding), compared;
      }
      var sv := studentEmbedding.value;

      var galleryList := InSchool(galleryCol, schoolId);
      var matches: seq<Match> := [];
      ghost var kept: seq<GalleryEntry> := [];
      var i := 0;
      while i < |galleryList|
        invariant 0 <= i <= |galleryList|
        invariant Valid()
        invariant kept == Qualifying(galleryList[..i], sv, threshold, sim)
        invariant AllPresent(kept)
        invariant matches == MatchesOf(kept, sv, sim)
        invariant resultCol == ApplyUpserts(old(resultCol), UpsertsOf(studentId, schoolId, sv, kept, sim))
        invariant forall e :: e in compared ==> e in galleryCol && e.schoolId == schoolId && Present(e.vectorgallery)
      {
        var img := galleryList[i];
        var galleryEmbedding := img.vectorgallery;
        if !Present(galleryEmbedding) {
          StepSkipped(galleryList, i, sv, threshold, sim);
          i := i + 1;
          continue;
        }
        var score := sim(sv, galleryEmbedding.value);
        InSchoolMembers(galleryCol, schoolId, img);
        compared := compared + [img];
        if score > threshold {
          StepKept(studentId, schoolId, galleryList, i, sv, threshold, sim);
          matches := matches + [Match(img.imageUrl, score, img.id)];
          ResultDocCarriesKey(studentId, schoolId, sv, img, score);
          UpdateOne((studentId, img.id), ResultDoc(studentId, schoolId, sv, img, score));
          kept := kept + [img];
        } else {
          StepSkipped(galleryList, i, sv, threshold, sim);
        }
        i := i + 1;
      }
      assert galleryList[..i] == galleryList;

      matches := SortBySimilarity(matches);
      MatchesAreTheQualifyingEntries(studentCol, galleryCol, studentId, threshold, sim);
      return Ok(Response(studentId, schoolId, matches, |matches|)), compared;
    }
  }

  /** The cosine similarity of two unit vectors: their dot product. */
  function Dot(a: Vector, b: Vector): real
  {
    if a == [] || b == [] then 0.0 else a[0] * b[0] + Dot(a[1..], b[1..])
  }

  /** The student and gallery collections of the route's own test case. */
  const ScenarioStudents: map<string, StudentRec> :=
    map["123" := StudentRec(Some("SCH-001"), Some([1.0, 0.0]))]
  const ScenarioImg1: GalleryEntry := GalleryEntry("img1", Some("SCH-001"), Some([1.0, 0.0]), Some("http://img1.jpg"))
  const ScenarioImg2: GalleryEntry := GalleryEntry("img2", Some("SCH-001"), Some([0.0, 1.0]), Some("http://img2.jpg"))

  lemma ScenarioScores()
    ensures Dot([1.0, 0.0], [1.0, 0.0]) == 1.0
    ensures Dot([1.0, 0.0], [0.0, 1.0]) == 0.0
  {
    assert [1.0, 0.0][1..] == [0.0] && [0.0, 1.0][1..] == [1.0];
  }

  lemma ScenarioInSchool()
    ensures InSchool([ScenarioImg1, ScenarioImg2], Some("SCH-001")) == [ScenarioImg1, ScenarioImg2]
  {
    var img1, img2 := ScenarioImg1, ScenarioImg2;
    assert [img1, img2][..1] == [img1] && [img1][..0] == [];
    assert InSchool([img1], Some("SCH-001")) == [img1];
  }

  lemma ScenarioQualifying(t: real)
    requires 0.0 <= t < 1.0
    ensures Qualifying([ScenarioImg1, ScenarioImg2], [1.0, 0.0], t, Dot) == [ScenarioImg1]
  {
    var img1, img2 := ScenarioImg1, ScenarioImg2;
    ScenarioScores();
    assert [img1, img2][..1] == [img1] && [img1][..0] == [];
    assert Qualifying([img1], [1.0, 0.0], t, Dot) == [img1];
  }

  /** Only the identical image is kept. */
  lemma ScenarioKept(t: real)
    requires 0.0 <= t < 1.0
    ensures KeptFor([ScenarioImg1, ScenarioImg2], ScenarioStudents["123"], t, Dot) == [ScenarioImg1]
  {
    ScenarioInSchool();
    ScenarioQualifying(t);
  }

  lemma ScenarioMatches()
    ensures SortBySimilarity(MatchesOf([ScenarioImg1], [1.0, 0.0], Dot))
      == [Match(Some("http://img1.jpg"), 1.0, "img1")]
  {
    ScenarioScores();
    var m1 := Match(Some("http://img1.jpg"), 1.0, "img1");
    assert MatchesOf([ScenarioImg1], [1.0, 0.0], Dot) == [m1];
  }

  lemma ScenarioStore()
    ensures ApplyUpserts(map[], UpsertsOf("123", Some("SCH-001"), [1.0, 0.0], [ScenarioImg1], Dot)).Keys
      == {("123", "img1")}
  {
    var up := (("123", "img1"), ResultDoc("123", Some("SCH-001"), [1.0, 0.0], ScenarioImg1, Dot([1.0, 0.0], [1.0, 0.0])));
    assert UpsertsOf("123", Some("SCH-001"), [1.0, 0.0], [ScenarioImg1], Dot) == [up];
  }

  /**
   * The route's own test case: a student with embedding [1, 0] and two
   * gallery images of the same school, one identical ([1, 0], score 1) and
   * one orthogonal ([0, 1], score 0). With any threshold from 0 up to (not
   * including) 1, the default 0.1 among them, only the first matches and
   * only its result is stored; an unknown student fails with 404.
   */
  lemma SingleMatchScenario(t: real)
    requires 0.0 <= t < 1.0
    ensures FindPhotos(ScenarioStudents, [ScenarioImg1, ScenarioImg2], "123", t, Dot)
      == Ok(Response("123", Some("SCH-001"), [Match(Some("http://img1.jpg"), 1.0, "img1")], 1))
    ensures StoreAfterFind(map[], ScenarioStudents, [ScenarioImg1, ScenarioImg2], "123", t, Dot).Keys
      == {("123", "img1")}
    ensures FindPhotos(ScenarioStudents, [ScenarioImg1, ScenarioImg2], "999", t, Dot)
      == Err(StudentNotFound)
  {
    ScenarioKept(t);
    ScenarioMatches();
    ScenarioStore();
  }

  /**
   * The test case run against the object: the known student gets img1 as
   * the single match, and the unknown one a 404 that leaves the result
   * collection as the first call left it.
   */
  method RunScenario() returns (found: Result<Response>, missing: Result<Response>, stored: set<ResultKey>)
    ensures found == Ok(Response("123", Some("SCH-001"), [Match(Some("http://img1.jpg"), 1.0, "img1")], 1))
    ensures missing == Err(StudentNotFound) && missing.failure.StatusCode() == 404
    ensures stored == {("123", "img1")}
  {
    var sorter := new PhotoSorter(ScenarioStudents, [ScenarioImg1, ScenarioImg2], map[]);
    SingleMatchScenario(DefaultThreshold);
    ghost var compared;
    found, compared := sorter.FindStudentPhotos("123", DefaultThreshold, Dot);
    missing, compared := sorter.FindStudentPhotos("999", DefaultThreshold, Dot);
    stored := sorter.resultCol.Keys;
  }
}
