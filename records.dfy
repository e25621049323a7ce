/**
 * The documents the photo-sorting router reads and writes: student records,
 * gallery images, the matches it answers with and the result documents it
 * stores, plus the outcome of one request.
 */
module Records {

  datatype Option<+T> = None | Some(value: T)

  /** An embedding: a list of floats produced by the face model. */
  type Vector = seq<real>

  /**
   * Truthiness of an embedding field as the router tests it (`if not x`):
   * a missing field and an empty list are both "no embedding".
   */
  predicate Present(v: Option<Vector>)
  {
    v.Some? && |v.value| > 0
  }

  /** A document of the student collection, looked up by its studentId. */
  datatype StudentRec = StudentRec(schoolId: Option<string>, vectorEmbedding: Option<Vector>)

  /** A document of the gallery collection; `id` is its `_id` as a string. */
  datatype GalleryEntry = GalleryEntry(
    id: string,
    schoolId: Option<string>,
    vectorgallery: Option<Vector>,
    imageUrl: Option<string>)

  /** One element of the `matches` list of the response. */
  datatype Match = Match(imageUrl: Option<string>, similarity: real, galleryId: string)

  /** A field value of a stored result document. */
  datatype Value = Null | Str(s: string) | Num(r: real) | Vec(v: Vector)

  /** A stored result document: field name to value. */
  type Document = map<string, Value>

  /** The key a result document is upserted under: (studentId, galleryImageId). */
  type ResultKey = (string, string)

  /** An optional string as a document field value (`None` is stored as null). */
  function OptStr(o: Option<string>): Value
  {
    match o
    case None => Null
    case Some(s) => Str(s)
  }

  /** The two ways a request fails before the gallery is read. */
  datatype Failure = StudentNotFound | NoEmbedding
  {
    /** The HTTP status the router raises for this failure. */
    function StatusCode(): int
    {
      match this
      case StudentNotFound => 404
      case NoEmbedding => 400
    }
  }

  /** The JSON body of a successful request. */
  datatype Response = Response(
    studentId: string,
    schoolId: Option<string>,
    matches: seq<Match>,
    count: int)

  datatype Result<+T> = Ok(value: T) | Err(failure: Failure)
}
