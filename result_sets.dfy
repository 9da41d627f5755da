/**
 * The ResultSet of one request: an ordered list of identity names, grown
 * only by appending a name that is not in it yet (`if s not in results:
 * results.append(s)`).
 */
module ResultSets {

  type Name = string

  /** No name occurs twice. */
  predicate NoDup(s: seq<Name>)
  {
    forall i, j :: 0 <= i < j < |s| ==> s[i] != s[j]
  }

  /** One step of the merge: append `x` unless it is already present. */
  function AddIfAbsent(rs: seq<Name>, x: Name): seq<Name>
  {
    if x in rs then rs else rs + [x]
  }

  /** Merges `xs`, left to right, into `rs` by `AddIfAbsent`. */
  function MergeInto(rs: seq<Name>, xs: seq<Name>): seq<Name>
    decreases |xs|
  {
    if xs == [] then rs
    else AddIfAbsent(MergeInto(rs, xs[..|xs| - 1]), xs[|xs| - 1])
  }

  /** Order-preserving de-duplication: `xs` merged into the empty list. */
  function Dedup(xs: seq<Name>): seq<Name>
  {
    MergeInto([], xs)
  }

  /**
   * What a merge keeps and adds: the old list is an untouched prefix of the
   * new one, the new one holds exactly the old names and the merged ones,
   * and it stays free of duplicates.
   */
  lemma {:induction false} MergeIntoFacts(rs: seq<Name>, xs: seq<Name>)
    ensures |rs| <= |MergeInto(rs, xs)| <= |rs| + |xs| && MergeInto(rs, xs)[..|rs|] == rs
    ensures forall x :: x in MergeInto(rs, xs) <==> x in rs || x in xs
    ensures NoDup(rs) ==> NoDup(MergeInto(rs, xs))
    decreases |xs|
  {
    if xs != [] {
      var init, x := xs[..|xs| - 1], xs[|xs| - 1];
      MergeIntoFacts(rs, init);
      assert xs == init + [x];
      var m := MergeInto(rs, init);
      assert (m + [x])[..|rs|] == m[..|rs|];
    }
  }

  /** Merging names that are all present already changes nothing. */
  lemma {:induction false} MergePresent(rs: seq<Name>, xs: seq<Name>)
    requires forall x :: x in xs ==> x in rs
    ensures MergeInto(rs, xs) == rs
    decreases |xs|
  {
    if xs != [] {
      var init := xs[..|xs| - 1];
      assert forall x :: x in init ==> x in xs;
      MergePresent(rs, init);
    }
  }

  /** Merging `xs` then `ys` is merging `xs + ys`. */
  lemma {:induction false} MergeConcat(rs: seq<Name>, xs: seq<Name>, ys: seq<Name>)
    ensures MergeInto(MergeInto(rs, xs), ys) == MergeInto(rs, xs + ys)
    decreases |ys|
  {
    if ys == [] {
      assert xs + ys == xs;
    } else {
      var init := ys[..|ys| - 1];
      MergeConcat(rs, xs, init);
      assert (xs + ys)[..|xs + ys| - 1] == xs + init;
    }
  }

  /** Merging the de-duplicated list is merging the list itself. */
  lemma {:induction false} MergeDedup(rs: seq<Name>, xs: seq<Name>)
    ensures MergeInto(rs, Dedup(xs)) == MergeInto(rs, xs)
    decreases |xs|
  {
    if xs != [] {
      var init, x := xs[..|xs| - 1], xs[|xs| - 1];
      MergeDedup(rs, init);
      var d := Dedup(init);
      MergeIntoFacts([], init);
      MergeIntoFacts(rs, init);
      if x !in d {
        assert (d + [x])[..|d|] == d;
      }
    }
  }

  /**
   * Re-merging the whole `matches` list after appending one new match, as
   * `find_face` does, is the same as adding just that match.
   */
  lemma RemergeAfterAppend(before: seq<Name>, x: Name)
    ensures MergeInto(Dedup(before), before + [x]) == Dedup(before + [x])
  {
    MergeIntoFacts([], before);
    MergePresent(Dedup(before), before);
    MergeConcat(Dedup(before), before, [x]);
    assert (before + [x])[..|before|] == before;
  }

  /** Index of the first occurrence of `x` in `xs`. */
  function FirstIndex(xs: seq<Name>, x: Name): (i: nat)
    requires x in xs
    ensures i < |xs| && xs[i] == x && x !in xs[..i]
  {
    if xs[0] == x then 0 else 1 + FirstIndex(xs[1..], x)
  }

  /** The first occurrence of a name of `xs` is unchanged by appending to `xs`. */
  lemma {:induction false} FirstIndexAppend(xs: seq<Name>, y: Name, x: Name)
    requires x in xs
    ensures FirstIndex(xs + [y], x) == FirstIndex(xs, x)
  {
    if xs[0] != x {
      assert (xs + [y])[1..] == xs[1..] + [y];
      FirstIndexAppend(xs[1..], y, x);
    }
  }

  /** `d` lists names of `xs` in the order of their first occurrence in `xs`. */
  predicate InFirstOccurrenceOrder(d: seq<Name>, xs: seq<Name>)
  {
    && (forall i :: 0 <= i < |d| ==> d[i] in xs)
    && forall i, j :: 0 <= i < j < |d| ==> FirstIndex(xs, d[i]) < FirstIndex(xs, d[j])
  }

  /** Appending a name first seen at the end keeps the first-occurrence order. */
  lemma FirstOccurrenceOrderStep(d: seq<Name>, init: seq<Name>, x: Name)
    requires InFirstOccurrenceOrder(d, init) && x !in init
    ensures InFirstOccurrenceOrder(d, init + [x]) && InFirstOccurrenceOrder(d + [x], init + [x])
  {
    var xs := init + [x];
    forall i | 0 <= i < |d| ensures FirstIndex(xs, d[i]) == FirstIndex(init, d[i]) < |init| {
      FirstIndexAppend(init, x, d[i]);
    }
    assert FirstIndex(xs, x) == |init|;
    var d' := d + [x];
    forall i, j | 0 <= i < j < |d'| ensures FirstIndex(xs, d'[i]) < FirstIndex(xs, d'[j]) {
      assert d'[i] == d[i];
    }
  }

  /**
   * `Dedup(xs)` lists the distinct names of `xs`, each once, in the order of
   * their first occurrence in `xs`.
   */
  lemma {:induction false} DedupFirstOccurrenceOrder(xs: seq<Name>)
    ensures NoDup(Dedup(xs))
    ensures forall x :: x in Dedup(xs) <==> x in xs
    ensures InFirstOccurrenceOrder(Dedup(xs), xs)
    decreases |xs|
  {
    MergeIntoFacts([], xs);
    if xs != [] {
      var init, x := xs[..|xs| - 1], xs[|xs| - 1];
      DedupFirstOccurrenceOrder(init);
      assert xs == init + [x];
      var d := Dedup(init);
      if x in d {
        forall i | 0 <= i < |d| ensures FirstIndex(xs, d[i]) == FirstIndex(init, d[i]) {
          FirstIndexAppend(init, x, d[i]);
        }
      } else {
        FirstOccurrenceOrderStep(d, init, x);
      }
    }
  }

  /** The names in the ResultSet of one request, updated in place. */
  class ResultList {
    var names: seq<Name>

    /** `results = []`. */
    constructor ()
      ensures names == []
    {
      names := [];
    }

    /** `results.append(s)`. */
    method Append(s: Name)
      modifies this
      ensures names == old(names) + [s]
    {
      names := names + [s];
    }
  }
}
