/**
 * `process_frame` and `process_video_frames`: sample a video's frames, match
 * the faces of each sampled frame, and merge the names into one ResultSet.
 */
module Video {
  import opened Outcomes
  import opened ResultSets
  import opened Embeddings
  import opened Matcher
  import opened Sampler

  /**
   * One decoded frame as the face detector reports it: how many face
   * locations it found and the embedding of each face.
   */
  datatype Frame = Frame(locations: nat, encodings: seq<Embedding>)

  /** What `process_frame` makes of `results` for one frame. */
  function FrameStep(acc: seq<Name>, f: Frame, lookup: Halves -> Lookup): seq<Name>
  {
    if f.locations == 0 then acc else MergeInto(acc, MatchedNames(f.encodings, lookup))
  }

  /**
   * The sampling loop from the ResultSet `acc` over the frame indices
   * `idxs`; `frameAt` gives `None` where `capturar_frames.read()` yields no
   * image, and `process_frame` then raises inside the handler.
   */
  function ScanFrames(acc: seq<Name>, idxs: seq<int>, frameAt: int -> Option<Frame>,
                      lookup: Halves -> Lookup): Result<seq<Name>>
    decreases |idxs|
  {
    if idxs == [] then Ok(acc)
    else match frameAt(idxs[0])
      case None => Err(ServerError)
      case Some(f) => ScanFrames(FrameStep(acc, f, lookup), idxs[1..], frameAt, lookup)
  }

  /** What `process_video_frames` returns for a video reporting `n` frames. */
  function VideoNames(n: int, frameAt: int -> Option<Frame>, lookup: Halves -> Lookup): Result<seq<Name>>
  {
    match Sample(n)
    case Err(status) => Err(status)
    case Ok(idxs) => ScanFrames([], idxs, frameAt, lookup)
  }

  /**
   * `process_frame(frame, results)`: a frame without detected faces leaves
   * `results` as it is; otherwise every name `find_face` reports for the
   * frame that `results` lacks is appended to it, in place. The same list
   * object is returned.
   */
  method ProcessFrame(frame: Frame, results: ResultList, lookup: Halves -> Lookup) returns (r: ResultList)
    modifies results
    ensures r == results
    ensures results.names == FrameStep(old(results.names), frame, lookup)
  {
    if frame.locations == 0 {
      return results;
    }
    var tmp := FindFace(frame.encodings, lookup);
    for i := 0 to |tmp|
      invariant results.names == MergeInto(old(results.names), tmp[..i])
    {
      assert tmp[..i + 1][..i] == tmp[..i];
      if tmp[i] !in results.names {
        results.Append(tmp[i]);
      }
    }
    assert tmp[..|tmp|] == tmp;
    return results;
  }

  /**
   * `process_video_frames`: the step is `int(n * 0.15)`; a zero step makes
   * `range` raise, and an unreadable sampled frame makes `process_frame`
   * raise; both end in the error response with status 500. Otherwise the
   * sampled frames are processed in increasing order into one ResultSet.
   */
  method ProcessVideoFrames(n: int, frameAt: int -> Option<Frame>, lookup: Halves -> Lookup)
    returns (out: Result<seq<Name>>)
    ensures out == VideoNames(n, frameAt, lookup)
  {
    var step := Step(n);
    if step == 0 {
      return Err(ServerError);
    }
    var results := new ResultList();
    var fno := 0;
    ghost var goal := VideoNames(n, frameAt, lookup);
    while Continues(fno, n, step)
      invariant fresh(results)
      invariant goal == ScanFrames(results.names, RangeFrom(fno, n, step), frameAt, lookup)
      decreases if step > 0 then n - fno else fno - n
    {
      ScanOneFrame(results.names, fno, n, step, frameAt, lookup);
      var image := frameAt(fno);
      if image.None? {
        return Err(ServerError);
      }
      results := ProcessFrame(image.value, results, lookup);
      fno := fno + step;
    }
    ScanOneFrame(results.names, fno, n, step, frameAt, lookup);
    return Ok(results.names);
  }

  /** One turn of the sampling loop, or its end. */
  lemma ScanOneFrame(acc: seq<Name>, fno: int, n: int, step: int,
                     frameAt: int -> Option<Frame>, lookup: Halves -> Lookup)
    requires step != 0
    ensures !Continues(fno, n, step) ==>
              ScanFrames(acc, RangeFrom(fno, n, step), frameAt, lookup) == Ok(acc)
    ensures Continues(fno, n, step) ==>
              ScanFrames(acc, RangeFrom(fno, n, step), frameAt, lookup) ==
              match frameAt(fno)
              case None => Err(ServerError)
              case Some(f) => ScanFrames(FrameStep(acc, f, lookup), RangeFrom(fno + step, n, step), frameAt, lookup)
  {
    var r := RangeFrom(fno, n, step);
    if Continues(fno, n, step) {
      assert r[0] == fno && r[1..] == RangeFrom(fno + step, n, step);
    }
  }

  /** What one frame does to the ResultSet: extends it, never removes, reorders or duplicates. */
  lemma FrameStepFacts(acc: seq<Name>, f: Frame, lookup: Halves -> Lookup)
    ensures f.locations == 0 ==> FrameStep(acc, f, lookup) == acc
    ensures |acc| <= |FrameStep(acc, f, lookup)| && FrameStep(acc, f, lookup)[..|acc|] == acc
    ensures NoDup(acc) ==> NoDup(FrameStep(acc, f, lookup))
    ensures forall x :: x in FrameStep(acc, f, lookup) <==>
              x in acc || (f.locations > 0 && x in MatchedNames(f.encodings, lookup))
  {
    if f.locations > 0 {
      var m := MatchedNames(f.encodings, lookup);
      MergeIntoFacts(acc, m);
    }
  }

  /** Every sampled frame could be read. */
  predicate AllReadable(idxs: seq<int>, frameAt: int -> Option<Frame>)
  {
    forall i :: 0 <= i < |idxs| ==> frameAt(idxs[i]).Some?
  }

  /** The hits of one frame; none when no face was located. */
  function FrameHits(f: Frame, lookup: Halves -> Lookup): seq<Name>
  {
    if f.locations == 0 then [] else Hits(f.encodings, lookup)
  }

  /** The hits of all sampled frames, frame after frame. */
  function AllHits(idxs: seq<int>, frameAt: int -> Option<Frame>, lookup: Halves -> Lookup): seq<Name>
    requires AllReadable(idxs, frameAt)
    decreases |idxs|
  {
    if idxs == [] then []
    else FrameHits(frameAt(idxs[0]).value, lookup) + AllHits(idxs[1..], frameAt, lookup)
  }

  /**
   * Scanning the frames succeeds exactly when every one of them can be read,
   * and then merges the hits of all frames, in frame order, into `acc`.
   */
  lemma {:induction false} ScanFramesMergesAllHits(acc: seq<Name>, idxs: seq<int>,
                                                   frameAt: int -> Option<Frame>, lookup: Halves -> Lookup)
    ensures ScanFrames(acc, idxs, frameAt, lookup).Ok? <==> AllReadable(idxs, frameAt)
    ensures ScanFrames(acc, idxs, frameAt, lookup).Err? ==> ScanFrames(acc, idxs, frameAt, lookup).status == ServerError
    ensures AllReadable(idxs, frameAt) ==>
              ScanFrames(acc, idxs, frameAt, lookup).value == MergeInto(acc, AllHits(idxs, frameAt, lookup))
    decreases |idxs|
  {
    if idxs != [] {
      var rest := idxs[1..];
      assert AllReadable(idxs, frameAt) ==> AllReadable(rest, frameAt) by {
        if AllReadable(idxs, frameAt) {
          forall i | 0 <= i < |rest| ensures frameAt(rest[i]).Some? {
            assert rest[i] == idxs[i + 1];
          }
        }
      }
      if frameAt(idxs[0]).Some? {
        var f := frameAt(idxs[0]).value;
        var acc' := FrameStep(acc, f, lookup);
        ScanFramesMergesAllHits(acc', rest, frameAt, lookup);
        assert AllReadable(rest, frameAt) ==> AllReadable(idxs, frameAt) by {
          if AllReadable(rest, frameAt) {
            forall i | 0 <= i < |idxs| ensures frameAt(idxs[i]).Some? {
              if i > 0 { assert idxs[i] == rest[i - 1]; }
            }
          }
        }
        if AllReadable(idxs, frameAt) {
          MergeDedup(acc, Hits(f.encodings, lookup));
          assert acc' == MergeInto(acc, FrameHits(f, lookup));
          MergeConcat(acc, FrameHits(f, lookup), AllHits(rest, frameAt, lookup));
        }
      } else {
        assert !AllReadable(idxs, frameAt);
      }
    }
  }

  /**
   * The whole video: it fails with status 500 exactly when the step is zero
   * or a sampled frame cannot be read; otherwise the result lists, without
   * duplicates and in order of first appearance, the hits of all sampled
   * frames, frame by frame.
   */
  lemma VideoNamesAreDedupOfAllHits(n: int, frameAt: int -> Option<Frame>, lookup: Halves -> Lookup)
    ensures VideoNames(n, frameAt, lookup).Err? ==> VideoNames(n, frameAt, lookup).status == ServerError
    ensures VideoNames(n, frameAt, lookup).Ok? <==>
              Step(n) != 0 && AllReadable(Sample(n).value, frameAt)
    ensures VideoNames(n, frameAt, lookup).Ok? ==>
              VideoNames(n, frameAt, lookup).value == Dedup(AllHits(Sample(n).value, frameAt, lookup)) &&
              NoDup(VideoNames(n, frameAt, lookup).value)
  {
    if Step(n) != 0 {
      ScanFramesMergesAllHits([], Sample(n).value, frameAt, lookup);
      if AllReadable(Sample(n).value, frameAt) {
        DedupFirstOccurrenceOrder(AllHits(Sample(n).value, frameAt, lookup));
      }
    }
  }

  /** A video reporting fewer than 7 frames (or none) always ends in status 500. */
  lemma ShortVideoFails(n: int, frameAt: int -> Option<Frame>, lookup: Halves -> Lookup)
    requires 0 <= n < 7
    ensures VideoNames(n, frameAt, lookup) == Err(ServerError)
  {}
}
