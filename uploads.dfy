/**
 * File-name checks of the upload routes: `allowed_file` and the
 * case-insensitive `endswith` tests on the uploaded file's name.
 */
module Uploads {
  import opened Outcomes
  import opened Text

  /** `ALLOWED_EXTENSIONS` of main.py. */
  const AllowedExtensions: set<string> := {"mp4", "avi", "mov", "gif"}

  /** The suffix tuple of the photo and enrolment routes. */
  const ImageSuffixes: seq<string> := [".png", ".jpg", ".jpeg"]

  /** The suffix tuple of the video route; note that `.mov` is not in it. */
  const VideoSuffixes: seq<string> := [".mp4", ".avi", ".gif"]

  /** The four allowed extensions, each as a dotted suffix. */
  const AllowedSuffixes: seq<string> := [".mp4", ".avi", ".mov", ".gif"]

  /**
   * `allowed_file(filename)`: the name contains a `.` and the lower-cased
   * text after its last `.` is an allowed extension.
   */
  predicate AllowedFile(filename: string)
  {
    match LastDot(filename)
    case None => false
    case Some(i) => Lower(filename[i + 1..]) in AllowedExtensions
  }

  /** The photo and enrolment routes' test of the uploaded name. */
  predicate ImageNameAccepted(filename: string)
  {
    EndsWithAny(Lower(filename), ImageSuffixes)
  }

  /** The video route's own suffix test. */
  predicate VideoNameAccepted(filename: string)
  {
    EndsWithAny(Lower(filename), VideoSuffixes)
  }

  /** Lower-casing a suffix is taking the suffix of the lower-cased name. */
  lemma LowerOfSuffix(f: string, i: nat)
    requires i <= |f|
    ensures Lower(f[i..]) == Lower(f)[i..]
  {}

  /** A `.` with no `.` after it is the last one. */
  lemma LastDotAt(f: string, i: nat)
    requires i < |f| && f[i] == '.'
    requires forall j :: i < j < |f| ==> f[j] != '.'
    ensures LastDot(f) == Some(i)
  {}

  /** The lower-cased name ends in its last `.` and the lower-cased text after it. */
  lemma LastDotSuffix(f: string, i: nat)
    requires LastDot(f) == Some(i)
    ensures EndsWith(Lower(f), ['.'] + Lower(f[i + 1..]))
  {
    var lf := Lower(f);
    LowerOfSuffix(f, i + 1);
    assert lf[i..] == [lf[i]] + lf[i + 1..];
  }

  /** The pieces of a lower-cased name that ends in `.` and then `e`. */
  lemma DottedSuffixParts(f: string, e: string)
    requires EndsWith(Lower(f), ['.'] + e)
    ensures f[|f| - |e| - 1] == '.' && Lower(f[|f| - |e|..]) == e
  {
    var lf := Lower(f);
    var i := |f| - |e| - 1;
    assert lf[i..] == ['.'] + e;
    assert lf[i] == '.';
    LowerCharDot(f[i]);
    LowerOfSuffix(f, i + 1);
  }

  /**
   * When the lower-cased name ends in `.` followed by a text `e` without
   * `.`, that `.` is the name's last one and `e` is the lower-cased rest.
   */
  lemma DottedSuffixLastDot(f: string, e: string)
    requires '.' !in e && EndsWith(Lower(f), ['.'] + e)
    ensures LastDot(f) == Some(|f| - |e| - 1) && Lower(f[|f| - |e|..]) == e
  {
    var i := |f| - |e| - 1;
    DottedSuffixParts(f, e);
    forall j | i < j < |f| ensures f[j] != '.' {
      assert Lower(f[i + 1..])[j - i - 1] == e[j - i - 1];
      LowerCharDot(f[j]);
    }
    LastDotAt(f, i);
  }

  /** Each allowed extension, with a `.` before it, is one of the dotted suffixes. */
  lemma ExtensionHasSuffix(ext: string)
    requires ext in AllowedExtensions
    ensures exists k :: 0 <= k < |AllowedSuffixes| && AllowedSuffixes[k] == ['.'] + ext
  {
    var k := if ext == "mp4" then 0 else if ext == "avi" then 1 else if ext == "mov" then 2 else 3;
    assert AllowedSuffixes[k] == ['.'] + ext;
  }

  /** Each dotted suffix is a `.` followed by an allowed extension holding no `.`. */
  lemma SuffixHasExtension(k: nat)
    requires k < |AllowedSuffixes|
    ensures AllowedSuffixes[k] == ['.'] + AllowedSuffixes[k][1..]
    ensures AllowedSuffixes[k][1..] in AllowedExtensions && '.' !in AllowedSuffixes[k][1..]
  {
    if k == 0 {
      assert AllowedSuffixes[0][1..] == "mp4";
    } else if k == 1 {
      assert AllowedSuffixes[1][1..] == "avi";
    } else if k == 2 {
      assert AllowedSuffixes[2][1..] == "mov";
    } else {
      assert AllowedSuffixes[3][1..] == "gif";
    }
  }

  /** An allowed extension after the last `.` makes the name end in that dotted suffix. */
  lemma AllowedFileEndsWithSuffix(f: string)
    requires AllowedFile(f)
    ensures EndsWithAny(Lower(f), AllowedSuffixes)
  {
    var i := LastDot(f).value;
    var ext := Lower(f[i + 1..]);
    LastDotSuffix(f, i);
    ExtensionHasSuffix(ext);
    var k :| 0 <= k < |AllowedSuffixes| && AllowedSuffixes[k] == ['.'] + ext;
    assert EndsWith(Lower(f), AllowedSuffixes[k]);
  }

  /** A name ending in a dotted allowed suffix passes `allowed_file`. */
  lemma SuffixMakesAllowedFile(f: string)
    requires EndsWithAny(Lower(f), AllowedSuffixes)
    ensures AllowedFile(f)
  {
    var k :| 0 <= k < |AllowedSuffixes| && EndsWith(Lower(f), AllowedSuffixes[k]);
    var ext := AllowedSuffixes[k][1..];
    SuffixHasExtension(k);
    DottedSuffixLastDot(f, ext);
    var i := |f| - |ext| - 1;
    assert f[i + 1..] == f[|f| - |ext|..];
    assert Lower(f[i + 1..]) in AllowedExtensions;
  }

  /**
   * `allowed_file` agrees with a plain case-insensitive suffix test against
   * `.mp4`, `.avi`, `.mov` and `.gif`, in both directions.
   */
  lemma AllowedFileIsSuffixTest(f: string)
    ensures AllowedFile(f) <==> EndsWithAny(Lower(f), AllowedSuffixes)
  {
    if AllowedFile(f) {
      AllowedFileEndsWithSuffix(f);
    }
    if EndsWithAny(Lower(f), AllowedSuffixes) {
      SuffixMakesAllowedFile(f);
    }
  }

  /** Upper or lower case in the name never changes a check's answer. */
  lemma ChecksIgnoreCase(f: string)
    ensures AllowedFile(f) == AllowedFile(Lower(f))
    ensures ImageNameAccepted(f) == ImageNameAccepted(Lower(f))
    ensures VideoNameAccepted(f) == VideoNameAccepted(Lower(f))
  {
    LowerIdempotent(f);
    AllowedFileIsSuffixTest(f);
    AllowedFileIsSuffixTest(Lower(f));
  }

  /**
   * Every name the video route's own suffix test lets through is also
   * accepted by `allowed_file`; a `.mov` name is accepted by `allowed_file`
   * but refused by the route's suffix test.
   */
  lemma VideoSuffixImpliesAllowed(f: string)
    ensures VideoNameAccepted(f) ==> AllowedFile(f)
    ensures EndsWith(Lower(f), ".mov") ==> AllowedFile(f) && !VideoNameAccepted(f)
  {
    AllowedFileIsSuffixTest(f);
    var lf := Lower(f);
    if VideoNameAccepted(f) {
      var k :| 0 <= k < 3 && EndsWith(lf, VideoSuffixes[k]);
      assert AllowedSuffixes[if k == 2 then 3 else k] == VideoSuffixes[k];
    }
    if EndsWith(lf, ".mov") {
      assert EndsWith(lf, AllowedSuffixes[2]);
      forall k | 0 <= k < 3 ensures !EndsWith(lf, VideoSuffixes[k]) {
        assert lf[|lf| - 1] == 'v';
        assert VideoSuffixes[k][3] != 'v';
      }
    }
  }
}
