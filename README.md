# Face recognition service core, in Dafny

A model of the identity-matching and evidence-aggregation core of the
Flask face recognition service in `main.py`. The service looks up the faces
of a photo or of sampled video frames in a PostgreSQL `vectors` table,
collects the names it finds into one duplicate-free list, and looks
each name up in an external person directory.

What is modelled, one module per component:

- `Uploads` (with `Text`): `allowed_file` and the case-insensitive
  `endswith` checks on uploaded file names.
- `ResultSets`: the ResultSet, an ordered list of names that only grows by
  "append if absent". `MergeInto` and `Dedup` specify it, and
  `ResultList` is the list object `process_frame` changes in place.
- `Embeddings`: the split of an embedding into `[0:64]` and `[64:128]`,
  with Python's clamping slices.
- `Matcher`: `find_face`, written as the source writes it. After every
  hit it scans the whole `matches` list again. It is proved equal to the
  de-duplicated list of hits. A store lookup is an oracle that answers
  `Row(name)`, `NoRow` or `DbError`. Its text is compared with `"None"`,
  as `str(...) != 'None'` does. So a stored name `None` is never
  reported, and a failed query is reported under the text of the error
  response.
- `Sampler`: `range(0, n, int(n * 0.15))`. A zero step (`-7 < n < 7`)
  is the error response with status 500, not a clamped step.
- `Video`: `process_frame`, which merges one frame's names into the
  caller's list in place, and `process_video_frames`, the sampling loop.
- `Enrichment`: `actor_info`, which keeps every truthy `buscar_info`
  result in order.
- `Store`: the `vectors` table as a map from stored name to halves, with
  `varchar(50)` and `UNIQUE(name)`. `insert_Actor` turns a failed INSERT
  into status 500.
- `Orientation`: the EXIF Orientation tag (0x0112) to rotation angle
  choice.
- `Routes`: the 400 refusals of the three routes. For the enrolment and
  photo routes, also how they chain the components; for the video route,
  only the checks made before any frame is read.

Behaviour of main.py worth noting, which the model keeps:

- A video reporting fewer than 7 frames gets a sampling step of 0, so
  `range` raises and `process_video_frames` returns its error response
  with status 500. What the video route then does with it is listed under
  "Left out".
- `buscar_info`'s error texts are truthy, so `actor_info` keeps them in its
  output.
- A failed store query is not surfaced as an error. `find_face` reports
  the error response's text as if it were a name.
- A video of at least 7 frames is sampled at 7 to 13 frames (13 for
  `n = 13`, where the step is 1).
- The photo route never answers 400 for an image it cannot decode. On a
  decoding error `corregir_orientacion` returns an error tuple, not `None`,
  so its 400 branch cannot run. Loading the tuple then raises. The inner
  handler's reply puts the error text in a set, which `jsonify` cannot
  encode. That exception reaches the outer handler, which answers 500.

The multiplication `n * 0.15` is modelled as the exact `15 * n / 100`,
truncated toward zero as `int()` does. The double nearest to `0.15` is
below it by about `5.6e-18`. For every frame count of magnitude below `2^50` the
product still rounds to `3n/20` when that is a whole number, and
otherwise lands more than `0.02` away from any whole number. So the
truncated value is the same.

## Model

| member | source | states |
|---|---|---|
| `Text.Lower` | main.py:235 | `str.lower` on the name (also main.py:312, 337 and 378): same length, each character lower-cased; `LowerIdempotent` and `Uploads.ChecksIgnoreCase` carry its properties |
| `Text.EndsWithAny` | main.py:312 | `str.endswith` with a tuple of suffixes (also main.py:337 and 378): the text ends in at least one of them; `Uploads.AllowedFileIsSuffixTest` and `Uploads.VideoSuffixImpliesAllowed` carry its properties |
| `Text.LastDot` | main.py:235 | the split point of `rsplit('.', 1)`: absent exactly when the name has no `.`, otherwise a `.` with no `.` after it |
| `Uploads.AllowedFile` | main.py:234-235 | `allowed_file`: the name has a `.` and the lower-cased text after its last `.` is `mp4`, `avi`, `mov` or `gif`; `AllowedFileIsSuffixTest` and `ChecksIgnoreCase` carry its properties |
| `Uploads.ImageNameAccepted` | main.py:312 | the `.png`/`.jpg`/`.jpeg` test on the lower-cased name of the enrolment and photo routes (also main.py:337); `ChecksIgnoreCase` carries its property |
| `Uploads.VideoNameAccepted` | main.py:378 | the video route's `.mp4`/`.avi`/`.gif` test on the lower-cased name; `VideoSuffixImpliesAllowed` and `ChecksIgnoreCase` carry its properties |
| `Uploads.DottedSuffixLastDot` | main.py:235 | when the lower-cased name ends in `.` and a dot-free text, `rsplit('.', 1)` splits at that `.` and the lower-cased extension is that text |
| `Uploads.AllowedFileEndsWithSuffix` | main.py:234-235 | a name `allowed_file` accepts ends, case-insensitively, in `.mp4`, `.avi`, `.mov` or `.gif` |
| `Uploads.SuffixMakesAllowedFile` | main.py:234-235 | a name ending, case-insensitively, in one of those four dotted suffixes is accepted by `allowed_file` |
| `Uploads.AllowedFileIsSuffixTest` | main.py:234-235 | `allowed_file(f)` holds if and only if the lower-cased name ends in `.mp4`, `.avi`, `.mov` or `.gif` |
| `Uploads.ChecksIgnoreCase` | main.py:235 | `allowed_file` and the image and video suffix checks give the same answer for a name and its lower-cased form |
| `Uploads.VideoSuffixImpliesAllowed` | main.py:378-381 | every name passing the video route's `.mp4`/`.avi`/`.gif` test passes `allowed_file`; a `.mov` name passes `allowed_file` but fails the route's test |
| `ResultSets.AddIfAbsent` | main.py:279-280 | `if s not in results: results.append(s)` for one name (also main.py:227-228); `MergeIntoFacts` carries its properties |
| `ResultSets.MergeInto` | main.py:278-280 | the append-if-absent loop over a list of names, left to right (also main.py:226-228); `MergeIntoFacts`, `MergeConcat` and `MergePresent` carry its properties |
| `ResultSets.Dedup` | main.py:226-228 | the names of a list without repeats, in order of first occurrence; `DedupFirstOccurrenceOrder` carries its properties |
| `ResultSets.MergeIntoFacts` | main.py:278-280 | appending the absent names keeps the old list as an unchanged prefix, adds at most one entry per merged name, holds exactly the old and merged names, and keeps a duplicate-free list duplicate-free |
| `ResultSets.MergePresent` | main.py:226-228 | merging names that are all present already leaves the list unchanged |
| `ResultSets.MergeConcat` | main.py:289-293 | merging one list after another is merging their concatenation |
| `ResultSets.MergeDedup` | main.py:277-280 | merging `find_face`'s de-duplicated names gives the same list as merging all its hits |
| `ResultSets.RemergeAfterAppend` | main.py:223-228 | re-scanning the whole `matches` list after one new match adds only that match, if absent |
| `ResultSets.FirstIndex` | main.py:227 | the position of a name's first occurrence: that entry holds the name and no earlier entry does |
| `ResultSets.FirstIndexAppend` | main.py:223 | appending to a list does not move the first occurrence of a name already in it |
| `ResultSets.DedupFirstOccurrenceOrder` | main.py:226-228 | the de-duplicated list has no duplicates, holds exactly the names of the input, and lists them in the order of their first occurrence |
| `ResultSets.ResultList.constructor` | main.py:289 | a new result list is empty |
| `ResultSets.ResultList.Append` | main.py:280 | `append` adds the name at the end and keeps the rest |
| `Embeddings.Slice` | main.py:213-214 | Python slicing `s[lo:hi]`: clamped length, and element `i` is `s[lo + i]` |
| `Embeddings.Split` | main.py:213-214 | `encoding[0:64]` and `encoding[64:128]` (also main.py:322-323); `SplitKeepsFirst128` and `SplitRoundTrip` carry its properties |
| `Embeddings.SplitKeepsFirst128` | main.py:213-214 | the two halves concatenate to the embedding's first 128 components |
| `Embeddings.SplitRoundTrip` | main.py:321-323 | a 128-component embedding splits into two 64-component halves that concatenate back to it |
| `Matcher.LookupText` | main.py:130-147 | the text `str(get_ActorData(query))` gives for no row, a stored name, or the error response; `HitsAreLookupTexts` carries its properties |
| `Matcher.TextAt` | main.py:221 | `tmp = str(get_ActorData(query))` for the query built from embedding `i`'s halves; `HitsAreLookupTexts` carries its properties |
| `Matcher.Hits` | main.py:221-223 | the `matches` list: every lookup text other than `None`, in embedding order; `HitsAreLookupTexts` and `MatchedNamesBounded` carry its properties |
| `Matcher.MatchedNames` | main.py:205-232 | what `find_face` returns: the hits without repeats, in first-hit order; `FindFace`, `MatchedNamesAreDistinctHits` and `MatchedNamesInFirstHitOrder` carry its properties |
| `Matcher.FindFace` | main.py:205-232 | the literal nested loop returns the hits, de-duplicated in order of first hit |
| `Matcher.HitsAreLookupTexts` | main.py:130-147 | a text is a hit exactly when it is not `None` and some embedding's lookup produced it: no row and a stored name `None` add nothing, a failed query adds the error response's text |
| `Matcher.MatchedNamesBounded` | main.py:207-232 | `find_face` reports no more names than hits, and no more hits than embeddings |
| `Matcher.MatchedNamesAreDistinctHits` | main.py:207-232 | `find_face`'s result has no duplicates, never contains `None`, and contains a text exactly when some embedding's lookup produced it |
| `Matcher.MatchedNamesInFirstHitOrder` | main.py:221-228 | the reported names are exactly the hits, in the order of their first successful lookup |
| `Matcher.MatchedNamesStep` | main.py:137-147 | one more embedding adds nothing on no row or a `None` name, and otherwise appends the name or the error text unless already reported |
| `Matcher.MatchedNamesEmpty` | main.py:207-232 | no embeddings give `[]` |
| `Matcher.MatchedNamesOrderIndependent` | main.py:210-228 | reordering the embeddings does not change the set of reported names |
| `Sampler.Step` | main.py:290 | `int(total_frames * 0.15)`, truncated toward zero; `StepZeroIffShort` carries its properties |
| `Sampler.RangeFrom` | main.py:290 | Python's `range(cur, stop, step)` for a non-zero step, upward or downward; `RangeUpAt`, `RangeUpLength` and `RangeDown` carry its properties |
| `Sampler.Sample` | main.py:290 | the frame indices `range(0, total_frames, step)`, or the 500 of main.py:297-298 when the step is 0; `SampleFailsIffShort`, `SampleVisitsMultiples` and `SampleCountBounded` carry its properties |
| `Sampler.StepZeroIffShort` | main.py:290 | `int(n * 0.15)` is 0 exactly for `-7 < n < 7`, and for `n >= 7` it is the floor of `15n/100`, at least 1 |
| `Sampler.SampleFailsIffShort` | main.py:290 | sampling fails with status 500 exactly when `-7 < n < 7`, `n = 0` included |
| `Sampler.RangeUpAt` | main.py:290 | entry `k` of an ascending `range` is `cur + k * step`, below `stop` |
| `Sampler.RangeUpLength` | main.py:290 | an ascending `range` stops at the first multiple of the step at or past `stop` |
| `Sampler.SampleVisitsMultiples` | main.py:287-290 | for `n >= 7` the sampled indices start at 0, are `k * step`, lie in `[0, n)`, strictly increase, and include every multiple of the step below `n` |
| `Sampler.SampleCoversMultiple` | main.py:290 | every multiple of the step below `n` is sampled |
| `Sampler.SampleCountBounded` | main.py:287-290 | for `n >= 7` between 7 and 13 frames are sampled |
| `Sampler.SampleOfHundred` | main.py:287-290 | a 100-frame video is sampled at `[0, 15, 30, 45, 60, 75, 90]` |
| `Sampler.RangeDown` | main.py:290 | entry `k` of a descending `range` is `cur + k * step`, above `stop` |
| `Sampler.SampleOfNegativeCount` | main.py:287-290 | a count of at most -7 gives a negative step and indices `k * step` in `(n, 0]` |
| `Video.FrameStep` | main.py:268-282 | `process_frame`: a frame with no face leaves the list as it is, otherwise `find_face`'s names are appended when absent; `FrameStepFacts` carries its properties |
| `Video.ScanFrames` | main.py:290-293 | the `for fno in range(...)` loop: each sampled frame merged in turn, 500 at the first unreadable one; `ScanFramesMergesAllHits` carries its properties |
| `Video.VideoNames` | main.py:284-301 | `process_video_frames`: 500 when the step is 0 or a sampled frame cannot be read, otherwise the names of all sampled frames merged in order; `VideoNamesAreDedupOfAllHits` carries its properties |
| `Video.ProcessFrame` | main.py:268-282 | a frame without faces leaves the list unchanged; otherwise the frame's names not yet present are appended in place, and the same list object is returned |
| `Video.ProcessVideoFrames` | main.py:284-298 | the sampling loop returns the error status for a zero step or an unreadable frame, and otherwise the names merged frame by frame in index order |
| `Video.FrameStepFacts` | main.py:274-282 | processing a frame never removes, reorders or duplicates entries, adds exactly the frame's reported names, and adds nothing for a frame without faces |
| `Video.ScanFramesMergesAllHits` | main.py:289-298 | the loop succeeds exactly when every sampled frame can be read, fails with 500 otherwise, and merges the hits of all frames in order |
| `Video.VideoNamesAreDedupOfAllHits` | main.py:284-298 | the video fails with 500 exactly when the step is 0 or a sampled frame is unreadable; otherwise the result is the duplicate-free list of all frames' hits in order of first appearance |
| `Video.ShortVideoFails` | main.py:297-298 | a video of fewer than 7 frames, or none, ends in status 500 |
| `Enrichment.Truthy` | main.py:201 | `if actor_info:` on a `buscar_info` result: a non-empty dictionary or a non-empty text; `KeptIsTruthyLookups` and `KeptSingle` carry its properties |
| `Enrichment.Kept` | main.py:195-203 | the truthy `buscar_info` results for the names, in order; `KeptIsTruthyLookups`, `KeptConcat` and `KeptAllTruthy` carry its properties |
| `Enrichment.ActorInfo` | main.py:195-203 | `[]` for no names; otherwise the truthy lookup results in name order |
| `Enrichment.KeptConcat` | main.py:199-202 | the filter preserves order: the lookups of `a + b` kept are those of `a` then those of `b` |
| `Enrichment.KeptIsTruthyLookups` | main.py:195-203 | no more results than names; every result is truthy and the lookup of some name; every truthy lookup is kept |
| `Enrichment.KeptAllTruthy` | main.py:199-202 | when every lookup is truthy, error texts included, nothing is dropped and result `j` is name `j`'s lookup |
| `Enrichment.KeptSingle` | main.py:170-177 | a non-empty error text from `buscar_info` is kept, an empty dictionary `{}` is dropped |
| `Store.StoredName` | main.py:107 | a `varchar(50)` value is the name when it fits; a longer name is accepted exactly when everything past its 50th character is spaces, and is then cut to its first 50 characters |
| `Store.InsertRow` | main.py:112-124 | `insert_Actor` running the INSERT: 500 with the table unchanged when the store is unreachable or the row is refused, otherwise 200 with the row added; `InsertAddsOneFreshRow` carries its properties |
| `Store.InsertAddsOneFreshRow` | main.py:114-124 | an INSERT either answers 500 and changes nothing, or answers 200 exactly when the store is reachable, the stored name is free and the embedding has more than 64 components, adding one row and keeping all others |
| `Store.EnrollTwiceFails` | main.py:107 | enrolling a name a second time answers 500 and leaves the table unchanged, whether or not the store is reachable |
| `Store.StoredHalvesRoundTrip` | main.py:321-323 | enrolling a fitting free name with a 128-component embedding succeeds exactly when the store is reachable, and then stores halves that concatenate back to it |
| `Store.VectorTable.constructor` | main.py:106-108 | the table starts empty |
| `Store.VectorTable.InsertActor` | main.py:112-124 | the status and the new rows are those of the INSERT of that name and embedding, given whether the store is reachable |
| `Orientation.RotationAngle` | main.py:246-253 | the angle `image.rotate` is given for the Orientation tag's value; `RotationUprights` carries its properties |
| `Orientation.RotationUprights` | main.py:246-253 | only tags 3, 6 and 8 rotate, by 180, 270 and 90 degrees counter-clockwise, which undoes the turn the tag records; any other value or a missing tag leaves the image as it is |
| `Routes.FormText` | main.py:309 | `'{}'.format(name)` of `request.form.get('name')`, as spliced at main.py:321: a missing field becomes the text `None`; `NamelessEnrolmentNeverReported` carries its properties |
| `Routes.AddKnownFace` | main.py:303-326 | a missing file or a name without a `.png`/`.jpg`/`.jpeg` suffix answers 400 and leaves the table unchanged; otherwise the INSERT's status and rows |
| `Routes.NamelessEnrolmentNeverReported` | main.py:309 | a face enrolled without a name is stored as `None`, which `find_face` never reports |
| `Routes.PhotoReply` | main.py:330-364 | what `/detect_and_recognize_faces` answers for an upload and the faces detected in it; `PhotoReplyErrors` and `PhotoReplyBounded` carry its properties |
| `Routes.RecognizePhoto` | main.py:330-364 | 400 for a missing or badly named file, 500 for a failed decode; otherwise `actor_info` of `find_face`'s names |
| `Routes.PhotoReplyErrors` | main.py:333-364 | the photo route answers 400 exactly for a missing file or a name without an image suffix, 500 exactly for an accepted upload that cannot be decoded, and no other error |
| `Routes.PhotoReplyBounded` | main.py:340-362 | a photo with no detected face gets an empty list, not an error, and never more profiles than faces |
| `Routes.VideoRouteGate` | main.py:367-406 | the checks `/reconocimiento_video` makes before reading any frame, in their order; `VideoGateNeverNotAllowed` carries its properties |
| `Routes.VideoGateNeverNotAllowed` | main.py:367-406 | the final 400 of the video route is unreachable; a file is accepted exactly when its name ends in `.mp4`, `.avi` or `.gif` in any case, and a `.mov` file is refused as a bad format |

## Left out

- Flask routing, multipart parsing, saving and removing the uploaded video,
  and JSON encoding of replies are not modelled. Uploads are given by their
  file names, and replies by a status or a list.
- The face detector, OpenCV and PIL are not modelled. Detected faces are
  given as embeddings, a video frame as the oracle `frameAt`, and a failed
  photo decode as `None`.
- The SQL distance query, its `0.6` threshold, its ordering and the
  formatting of floats into SQL text are done inside the database. They are
  abstracted as the `lookup` oracle over the embedding's two halves.
- Store.InsertRow: the name is spliced into the INSERT as text, so a name
  holding a quote changes the statement. `sqlalchemy.text` also reads a
  `:word` that follows a non-word character as a bind parameter. A name
  such as `John :Smith` therefore makes the INSERT raise, and
  `insert_Actor` answers 500. The model takes every name as the
  stored value. The `id serial` column and the index are not modelled.
- The `lookup` oracle is one fixed function for the whole request. The
  store is taken as a snapshot: an enrolment made during the request, or a
  query error that occurs for one lookup and not the next, is not modelled.
- The connection pool, `connect_with_connector`, `init_db` and `migrate_db`
  are not modelled. `db_pool` is never bound at module level, so in the code
  as it stands every lookup takes the `DbError` path and every INSERT
  answers 500. The model keeps the lookup general, and gives the INSERT
  the store's reachability as a parameter.
- The TMDB calls in `buscar_info` and `buscar_bio` are network I/O. Only
  their result shape is kept, as the `search` oracle.
- `add_known_face` has no `try`. An upload with an image suffix that PIL
  cannot decode makes `load_image_file` raise before `insert_Actor` runs,
  and Flask answers 500 with the table unchanged. It also indexes `[0]` into
  a possibly empty list of encodings, and `query` can be unbound. The model
  takes the first encoding as given, so `Routes.AddKnownFace` does not
  express these cases.
- After its checks, the video route passes whatever `process_video_frames`
  returns to `actor_info`. On failure that is the `(response, 500)` tuple,
  whose two members would then be searched for. This continuation is not
  modelled.
- Text.Lower: `str.lower` is modelled on the ASCII letters only.
- Orientation: only the angle choice is modelled. The rotation, the
  conversion to RGB, the JPEG re-encoding and the error branch of
  `corregir_orientacion` are not.
- `App/CamaraVideo.js`, `App/CamaraFoto.js` and `App/App.tsx` are user
  interface code and are not part of this model.
