/**
 * The decisions the three upload routes take around the core: which
 * uploads they refuse with 400, and how they chain enrolment, matching and
 * enrichment.
 */
module Routes {
  import opened Outcomes
  import opened ResultSets
  import opened Embeddings
  import opened Text
  import opened Uploads
  import opened Matcher
  import opened Enrichment
  import opened Store

  /** The `name` form field as the INSERT's `'{}'.format(name)` writes it: a missing field becomes `None`. */
  function FormText(name: Option<Name>): Name
  {
    match name
    case None => NoneText
    case Some(s) => s
  }

  /**
   * `/add_known_face`: `upload` is the name of the uploaded `file` (`None`
   * when the form has no file), `encoding` the first face the detector
   * finds in it, and `available` whether the store can be reached. A
   * missing file or a name without an image suffix is refused with 400
   * before the table is touched; otherwise the row is inserted.
   */
  method AddKnownFace(table: VectorTable, upload: Option<string>, name: Option<Name>, encoding: Embedding,
                     available: bool)
    returns (status: int)
    modifies table
    ensures upload.None? || !ImageNameAccepted(upload.value) ==>
              status == BadRequest && table.rows == old(table.rows)
    ensures upload.Some? && ImageNameAccepted(upload.value) ==>
              Insertion(status, table.rows) == InsertRow(old(table.rows), FormText(name), encoding, available)
  {
    if upload.None? {
      return BadRequest;
    }
    if !ImageNameAccepted(upload.value) {
      return BadRequest;
    }
    status := table.InsertActor(FormText(name), encoding, available);
  }

  /**
   * A face enrolled without a `name` field is stored under the text `None`,
   * which `find_face` never reports: such an enrolment can never be
   * recognised.
   */
  lemma NamelessEnrolmentNeverReported(encs: seq<Embedding>, lookup: Halves -> Lookup)
    ensures FormText(None) == NoneText
    ensures FormText(None) !in MatchedNames(encs, lookup)
  {
    MatchedNamesAreDistinctHits(encs, lookup);
  }

  /**
   * What `/detect_and_recognize_faces` answers: `detected` holds the
   * embeddings the detector finds, or `None` when decoding or detection
   * raised; the profiles are `actor_info` of `find_face`'s names. A failed
   * decode is answered with 500: the inner handler's reply puts the error
   * text in a set, which `jsonify` cannot encode, and the resulting
   * exception reaches the outer handler.
   */
  function PhotoReply(upload: Option<string>, detected: Option<seq<Embedding>>,
                      lookup: Halves -> Lookup, search: Name -> Info): Result<seq<Info>>
  {
    if upload.None? || !ImageNameAccepted(upload.value) then Err(BadRequest)
    else if detected.None? then Err(ServerError)
    else Ok(Kept(MatchedNames(detected.value, lookup), search))
  }

  /** `/detect_and_recognize_faces`, chaining `find_face` and `actor_info`. */
  method RecognizePhoto(upload: Option<string>, detected: Option<seq<Embedding>>,
                        lookup: Halves -> Lookup, search: Name -> Info) returns (reply: Result<seq<Info>>)
    ensures reply == PhotoReply(upload, detected, lookup, search)
  {
    if upload.None? || !ImageNameAccepted(upload.value) {
      return Err(BadRequest);
    }
    if detected.None? {
      return Err(ServerError);
    }
    var results := FindFace(detected.value, lookup);
    var profiles := ActorInfo(results, search);
    return Ok(profiles);
  }

  /**
   * A photo in which no face is detected is answered with an empty list, not
   * an error; in general there are never more profiles than faces.
   */
  lemma PhotoReplyBounded(upload: string, encs: seq<Embedding>, lookup: Halves -> Lookup, search: Name -> Info)
    requires ImageNameAccepted(upload)
    ensures PhotoReply(Some(upload), Some(encs), lookup, search).Ok?
    ensures |PhotoReply(Some(upload), Some(encs), lookup, search).value| <= |encs|
    ensures encs == [] ==> PhotoReply(Some(upload), Some(encs), lookup, search) == Ok([])
  {
    MatchedNamesBounded(encs, lookup);
    KeptIsTruthyLookups(MatchedNames(encs, lookup), search);
  }

  /**
   * The photo route refuses with 400 exactly the uploads that are missing or
   * lack an image suffix, and answers 500 exactly when such an upload could
   * not be decoded; it never answers any other error.
   */
  lemma PhotoReplyErrors(upload: Option<string>, detected: Option<seq<Embedding>>,
                         lookup: Halves -> Lookup, search: Name -> Info)
    ensures PhotoReply(upload, detected, lookup, search) == Err(BadRequest) <==>
              upload.None? || !ImageNameAccepted(upload.value)
    ensures PhotoReply(upload, detected, lookup, search) == Err(ServerError) <==>
              upload.Some? && ImageNameAccepted(upload.value) && detected.None?
    ensures PhotoReply(upload, detected, lookup, search).Err? ==>
              PhotoReply(upload, detected, lookup, search).status in {BadRequest, ServerError}
  {}

  /** How the video route treats an upload before any frame is read. */
  datatype VideoGate =
    | NoFile          // no `file` in the form
    | EmptyName       // the file name is empty
    | BadFormat       // the name lacks a `.mp4`, `.avi` or `.gif` suffix
    | Accepted        // the file is saved and processed
    | NotAllowed      // `allowed_file` refuses the name

  /** The checks of `/reconocimiento_video`, in the order it makes them. */
  function VideoRouteGate(upload: Option<string>): VideoGate
  {
    if upload.None? then NoFile
    else if upload.value == "" then EmptyName
    else if !VideoNameAccepted(upload.value) then BadFormat
    else if upload.value != "" && AllowedFile(upload.value) then Accepted
    else NotAllowed
  }

  /**
   * The last refusal of the video route can never be reached: every name the
   * route's own suffix test lets through passes `allowed_file`. A name is
   * accepted exactly when it ends in `.mp4`, `.avi` or `.gif`, in any case;
   * a `.mov` file, although `allowed_file` admits it, is refused as a bad
   * format.
   */
  lemma VideoGateNeverNotAllowed(upload: Option<string>)
    ensures VideoRouteGate(upload) != NotAllowed
    ensures VideoRouteGate(upload) == Accepted <==> upload.Some? && VideoNameAccepted(upload.value)
    ensures upload.Some? && EndsWith(Lower(upload.value), ".mov") ==> VideoRouteGate(upload) == BadFormat
  {
    if upload.Some? {
      VideoSuffixImpliesAllowed(upload.value);
      if upload.value == "" {
        assert !VideoNameAccepted(upload.value);
      }
    }
  }
}
