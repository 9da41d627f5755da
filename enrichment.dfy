/**
 * `actor_info`: looks every reported name up in the external person
 * directory (`buscar_info`) and keeps the results Python counts as true.
 */
module Enrichment {
  import opened ResultSets

  /**
   * What `buscar_info` returns: a dictionary (the merged search result and
   * biography, or `{}` when nothing was found) or the text of an error it
   * caught. Dictionary values are kept as text.
   */
  datatype Info = Record(fields: map<string, string>) | ErrText(message: string)

  /** `{}`, returned when the search finds nobody. */
  const Empty: Info := Record(map[])

  /** Python truthiness: a non-empty dictionary or a non-empty string. */
  predicate Truthy(i: Info)
  {
    match i
    case Record(fields) => |fields| > 0
    case ErrText(message) => |message| > 0
  }

  /** The lookups of `names` that `actor_info` keeps, in order. */
  function Kept(names: seq<Name>, search: Name -> Info): seq<Info>
    decreases |names|
  {
    if names == [] then []
    else
      var info := search(names[|names| - 1]);
      Kept(names[..|names| - 1], search) + (if Truthy(info) then [info] else [])
  }

  /**
   * `actor_info(results)`: an empty list gives `[]`; otherwise each name is
   * looked up in turn and every truthy result is appended.
   */
  method ActorInfo(names: seq<Name>, search: Name -> Info) returns (out: seq<Info>)
    ensures out == Kept(names, search)
  {
    if |names| == 0 {
      return [];
    }
    out := [];
    for i := 0 to |names|
      invariant out == Kept(names[..i], search)
    {
      assert names[..i + 1][..i] == names[..i];
      var info := search(names[i]);
      if Truthy(info) {
        out := out + [info];
      }
    }
    assert names[..|names|] == names;
  }

  /** Looking up `a + b` keeps what `a` keeps followed by what `b` keeps. */
  lemma {:induction false} KeptConcat(a: seq<Name>, b: seq<Name>, search: Name -> Info)
    ensures Kept(a + b, search) == Kept(a, search) + Kept(b, search)
    decreases |b|
  {
    if b == [] {
      assert a + b == a;
    } else {
      var init := b[..|b| - 1];
      KeptConcat(a, init, search);
      assert (a + b)[..|a + b| - 1] == a + init;
    }
  }

  /**
   * The kept results are the truthy lookups, in name order: never more than
   * there are names, each one truthy and the lookup of some name, and every
   * truthy lookup is among them.
   */
  lemma {:induction false} KeptIsTruthyLookups(names: seq<Name>, search: Name -> Info)
    ensures |Kept(names, search)| <= |names|
    ensures forall i :: 0 <= i < |Kept(names, search)| ==> Truthy(Kept(names, search)[i])
    ensures forall x :: x in Kept(names, search) <==>
              Truthy(x) && exists j :: 0 <= j < |names| && search(names[j]) == x
    decreases |names|
  {
    if names != [] {
      var init := names[..|names| - 1];
      KeptIsTruthyLookups(init, search);
      assert forall j :: 0 <= j < |init| ==> names[j] == init[j];
    }
  }

  /**
   * Only falsy results (`{}`) are dropped: when every lookup is truthy —
   * error texts included — each name contributes exactly its own lookup.
   */
  lemma {:induction false} KeptAllTruthy(names: seq<Name>, search: Name -> Info)
    requires forall j :: 0 <= j < |names| ==> Truthy(search(names[j]))
    ensures |Kept(names, search)| == |names|
    ensures forall j :: 0 <= j < |names| ==> Kept(names, search)[j] == search(names[j])
    decreases |names|
  {
    if names != [] {
      var init := names[..|names| - 1];
      KeptAllTruthy(init, search);
    }
  }

  /**
   * A name whose search fails with a non-empty error text keeps that text,
   * while a name the directory does not know (`{}`) is dropped.
   */
  lemma KeptSingle(name: Name, search: Name -> Info)
    ensures search(name).ErrText? && search(name).message != "" ==> Kept([name], search) == [search(name)]
    ensures search(name) == Empty ==> Kept([name], search) == []
  {}
}
