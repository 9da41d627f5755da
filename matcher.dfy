/**
 * `find_face`: looks every embedding of one image or frame up in the store
 * and collects the names found, each once, in the order first found.
 */
module Matcher {
  import opened ResultSets
  import opened Embeddings

  /**
   * What `get_ActorData` gives back for one query: the `name` of the first
   * row within the distance threshold, no row at all (`None`), or, when the
   * database call raises, the JSON error response built by `jsonify`.
   */
  datatype Lookup = NoRow | Row(name: Name) | DbError

  /** `str(None)`. */
  const NoneText: Name := "None"

  /**
   * `str()` of the error response `jsonify` builds for a failed query: its
   * compact JSON body is 52 bytes long. The model relies only on this text
   * differing from `"None"`.
   */
  const DbErrorText: Name := "<Response 52 bytes [200 OK]>"

  /** `str(get_ActorData(query))`. */
  function LookupText(l: Lookup): Name
  {
    match l
    case NoRow => NoneText
    case Row(name) => name
    case DbError => DbErrorText
  }

  /**
   * The text of the lookup of the `i`-th embedding; the query is built from
   * the embedding's two halves only.
   */
  function TextAt(encs: seq<Embedding>, lookup: Halves -> Lookup, i: nat): Name
    requires i < |encs|
  {
    LookupText(lookup(Split(encs[i])))
  }

  /**
   * The `matches` list of `find_face`: the lookup texts that are not
   * `"None"`, in embedding order.
   */
  function Hits(encs: seq<Embedding>, lookup: Halves -> Lookup): seq<Name>
    decreases |encs|
  {
    if encs == [] then []
    else
      var t := TextAt(encs, lookup, |encs| - 1);
      Hits(encs[..|encs| - 1], lookup) + (if t != NoneText then [t] else [])
  }

  /** The names `find_face` reports: the hits, de-duplicated in order. */
  function MatchedNames(encs: seq<Embedding>, lookup: Halves -> Lookup): seq<Name>
  {
    Dedup(Hits(encs, lookup))
  }

  /**
   * `find_face(unknown_face_encodings)`, written as the source does it: after
   * each hit the whole `matches` list is scanned again and every match not
   * yet in `results` is appended.
   */
  method FindFace(encs: seq<Embedding>, lookup: Halves -> Lookup) returns (results: seq<Name>)
    ensures results == MatchedNames(encs, lookup)
  {
    results := [];
    var matches: seq<Name> := [];
    for i := 0 to |encs|
      invariant matches == Hits(encs[..i], lookup)
      invariant results == Dedup(matches)
    {
      assert encs[..i + 1][..i] == encs[..i];
      var tmp := LookupText(lookup(Split(encs[i])));
      if tmp != NoneText {
        ghost var before := matches;
        matches := matches + [tmp];
        for j := 0 to |matches|
          invariant results == MergeInto(Dedup(before), matches[..j])
        {
          assert matches[..j + 1][..j] == matches[..j];
          if matches[j] !in results {
            results := results + [matches[j]];
          }
        }
        assert matches[..|matches|] == matches;
        RemergeAfterAppend(before, tmp);
      }
    }
    assert encs[..|encs|] == encs;
  }

  /**
   * A hit is exactly a lookup text other than `"None"`: no row and a stored
   * name whose text is `None` never count, while a failed query counts with
   * the error response's text.
   */
  lemma {:induction false} HitsAreLookupTexts(encs: seq<Embedding>, lookup: Halves -> Lookup)
    ensures forall x :: x in Hits(encs, lookup) <==>
              x != NoneText && exists i :: 0 <= i < |encs| && TextAt(encs, lookup, i) == x
    decreases |encs|
  {
    if encs != [] {
      var init := encs[..|encs| - 1];
      HitsAreLookupTexts(init, lookup);
      assert forall i :: 0 <= i < |init| ==> TextAt(init, lookup, i) == TextAt(encs, lookup, i);
    }
  }

  /** There are never more hits than embeddings, nor more reported names than hits. */
  lemma {:induction false} MatchedNamesBounded(encs: seq<Embedding>, lookup: Halves -> Lookup)
    ensures |MatchedNames(encs, lookup)| <= |Hits(encs, lookup)| <= |encs|
    decreases |encs|
  {
    MergeIntoFacts([], Hits(encs, lookup));
    if encs != [] {
      MatchedNamesBounded(encs[..|encs| - 1], lookup);
    }
  }

  /**
   * What `find_face` reports: no name twice, and a name exactly when some
   * embedding's lookup gave that text and the text is not `"None"`.
   */
  lemma MatchedNamesAreDistinctHits(encs: seq<Embedding>, lookup: Halves -> Lookup)
    ensures NoDup(MatchedNames(encs, lookup))
    ensures forall x :: x in MatchedNames(encs, lookup) <==>
              x != NoneText && exists i :: 0 <= i < |encs| && TextAt(encs, lookup, i) == x
    ensures NoneText !in MatchedNames(encs, lookup)
  {
    DedupFirstOccurrenceOrder(Hits(encs, lookup));
    HitsAreLookupTexts(encs, lookup);
  }

  /** The reported names come in the order of their first successful lookup. */
  lemma MatchedNamesInFirstHitOrder(encs: seq<Embedding>, lookup: Halves -> Lookup)
    ensures forall x :: x in MatchedNames(encs, lookup) <==> x in Hits(encs, lookup)
    ensures InFirstOccurrenceOrder(MatchedNames(encs, lookup), Hits(encs, lookup))
  {
    DedupFirstOccurrenceOrder(Hits(encs, lookup));
  }

  /**
   * One more embedding adds nothing when its lookup finds no row or a name
   * whose text is `None`, and otherwise appends its text (the name, or the
   * error response's text) unless it is already reported.
   */
  lemma MatchedNamesStep(encs: seq<Embedding>, e: Embedding, lookup: Halves -> Lookup)
    ensures lookup(Split(e)).NoRow? || lookup(Split(e)) == Row(NoneText) ==>
              MatchedNames(encs + [e], lookup) == MatchedNames(encs, lookup)
    ensures lookup(Split(e)).DbError? ==>
              MatchedNames(encs + [e], lookup) == AddIfAbsent(MatchedNames(encs, lookup), DbErrorText)
    ensures lookup(Split(e)).Row? && lookup(Split(e)).name != NoneText ==>
              MatchedNames(encs + [e], lookup) == AddIfAbsent(MatchedNames(encs, lookup), lookup(Split(e)).name)
  {
    var all := encs + [e];
    assert all[..|all| - 1] == encs;
    var t := TextAt(all, lookup, |all| - 1);
    if t != NoneText {
      var h := Hits(encs, lookup);
      assert (h + [t])[..|h|] == h;
    } else {
      assert Hits(encs, lookup) + [] == Hits(encs, lookup);
    }
  }

  /** No embeddings, no names. */
  lemma MatchedNamesEmpty(lookup: Halves -> Lookup)
    ensures MatchedNames([], lookup) == []
  {}

  /**
   * The set of reported names does not depend on the order in which the
   * detector lists the faces.
   */
  lemma MatchedNamesOrderIndependent(e1: seq<Embedding>, e2: seq<Embedding>, lookup: Halves -> Lookup)
    requires multiset(e1) == multiset(e2)
    ensures forall x :: x in MatchedNames(e1, lookup) <==> x in MatchedNames(e2, lookup)
  {
    MatchedNamesAreDistinctHits(e1, lookup);
    MatchedNamesAreDistinctHits(e2, lookup);
    forall x | x in MatchedNames(e1, lookup) ensures x in MatchedNames(e2, lookup) {
      var i :| 0 <= i < |e1| && TextAt(e1, lookup, i) == x;
      assert e1[i] in multiset(e2);
      var j :| 0 <= j < |e2| && e2[j] == e1[i];
      assert TextAt(e2, lookup, j) == x;
    }
    forall x | x in MatchedNames(e2, lookup) ensures x in MatchedNames(e1, lookup) {
      var i :| 0 <= i < |e2| && TextAt(e2, lookup, i) == x;
      assert e2[i] in multiset(e1);
      var j :| 0 <= j < |e1| && e1[j] == e2[i];
      assert TextAt(e1, lookup, j) == x;
    }
  }
}
