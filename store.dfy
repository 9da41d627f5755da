/**
 * The `vectors` table: one row per enrolled name, holding the embedding's
 * two halves, with `name varchar(50)` and `UNIQUE(name)`; and
 * `insert_Actor`, which turns a failed INSERT into status 500.
 */
module Store {
  import opened Outcomes
  import opened Embeddings
  import opened ResultSets

  /** The declared width of the `name` column. */
  const NameMaxLength: nat := 50

  /** Every character of `s` is a space. */
  predicate AllSpaces(s: string)
  {
    forall i :: 0 <= i < |s| ==> s[i] == ' '
  }

  /**
   * The value a `varchar(50)` column stores for `name`: the name itself when
   * it fits, the name cut to 50 characters when everything past them is
   * spaces, and otherwise nothing (the database rejects the value).
   */
  function StoredName(name: Name): (r: Option<Name>)
    ensures r.Some? ==> |r.value| <= NameMaxLength && |r.value| <= |name| && r.value == name[..|r.value|]
    ensures |name| <= NameMaxLength ==> r == Some(name)
    ensures |name| > NameMaxLength ==> (r.Some? <==> AllSpaces(name[NameMaxLength..]))
    ensures r.Some? && |name| > NameMaxLength ==> r.value == name[..NameMaxLength]
  {
    if |name| <= NameMaxLength then Some(name)
    else if AllSpaces(name[NameMaxLength..]) then Some(name[..NameMaxLength])
    else None
  }

  /** Outcome of one INSERT: the status `insert_Actor` answers and the rows afterwards. */
  datatype Insertion = Insertion(status: int, rows: map<Name, Halves>)

  /**
   * The INSERT of `name` with the halves of `enc`, as `insert_Actor` runs it.
   * `available` says whether the connection can be opened and the statement
   * sent; when it cannot (`db_pool` unbound, the database unreachable), the
   * catch-all answers 500. The INSERT also fails with 500, changing nothing,
   * when the name does not fit the column, when the stored name is taken
   * (`UNIQUE(name)`), or when the embedding has at most 64 components, so
   * that the high half is the untyped empty `array[]`. Otherwise one row is
   * added and 200 answered.
   */
  function InsertRow(rows: map<Name, Halves>, name: Name, enc: Embedding, available: bool): Insertion
  {
    if !available then Insertion(ServerError, rows)
    else match StoredName(name)
    case None => Insertion(ServerError, rows)
    case Some(key) =>
      if key in rows || |enc| <= 64 then Insertion(ServerError, rows)
      else Insertion(Success, rows[key := Split(enc)])
  }

  /**
   * An INSERT either fails with 500 and leaves the table as it was, or
   * answers 200 and adds exactly one row, under a name that was free,
   * leaving every other row as it was. It succeeds only when the store is
   * available.
   */
  lemma InsertAddsOneFreshRow(rows: map<Name, Halves>, name: Name, enc: Embedding, available: bool)
    ensures InsertRow(rows, name, enc, available).status in {Success, ServerError}
    ensures InsertRow(rows, name, enc, available).status == ServerError ==>
              InsertRow(rows, name, enc, available).rows == rows
    ensures InsertRow(rows, name, enc, available).status == Success <==>
              available && StoredName(name).Some? && StoredName(name).value !in rows && |enc| > 64
    ensures InsertRow(rows, name, enc, available).status == Success ==>
              InsertRow(rows, name, enc, available).rows.Keys == rows.Keys + {StoredName(name).value} &&
              |InsertRow(rows, name, enc, available).rows| == |rows| + 1 &&
              (forall k :: k in rows ==> InsertRow(rows, name, enc, available).rows[k] == rows[k])
  {}

  /**
   * Enrolling a name a second time fails with 500 and leaves the table
   * unchanged, whatever the second embedding is and whether or not the
   * store is available.
   */
  lemma EnrollTwiceFails(rows: map<Name, Halves>, name: Name, e1: Embedding, e2: Embedding, a1: bool, a2: bool)
    requires InsertRow(rows, name, e1, a1).status == Success
    ensures InsertRow(InsertRow(rows, name, e1, a1).rows, name, e2, a2).status == ServerError
    ensures InsertRow(InsertRow(rows, name, e1, a1).rows, name, e2, a2).rows == InsertRow(rows, name, e1, a1).rows
  {}

  /**
   * A fitting free name with a 128-component embedding is enrolled exactly
   * when the store is available, and then its two stored halves give the
   * embedding back.
   */
  lemma StoredHalvesRoundTrip(rows: map<Name, Halves>, name: Name, enc: Embedding, available: bool)
    requires |enc| == 128 && |name| <= NameMaxLength && name !in rows
    ensures InsertRow(rows, name, enc, available).status == Success <==> available
    ensures available ==> name in InsertRow(rows, name, enc, available).rows
    ensures available ==>
              InsertRow(rows, name, enc, available).rows[name].low +
              InsertRow(rows, name, enc, available).rows[name].high == enc
  {}

  /** The `vectors` table of the database. */
  class VectorTable {
    /** One entry per row: the stored name and the two halves. */
    var rows: map<Name, Halves>

    /** The table as `migrate_db` creates it: empty. */
    constructor ()
      ensures rows == map[]
    {
      rows := map[];
    }

    /**
     * `insert_Actor` running the INSERT built from `name` and `enc`;
     * `available` says whether the store could be reached.
     */
    method InsertActor(name: Name, enc: Embedding, available: bool) returns (status: int)
      modifies this
      ensures Insertion(status, rows) == InsertRow(old(rows), name, enc, available)
    {
      var outcome := InsertRow(rows, name, enc, available);
      rows := outcome.rows;
      status := outcome.status;
    }
  }
}
