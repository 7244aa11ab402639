/**
 * The `faqs` table of `college_faq.db` as an object: whether the table has
 * been created, its rows in rowid order, and the AUTOINCREMENT counter that
 * SQLite keeps for it in `sqlite_sequence`.
 */
module FaqStore {
  import opened FaqRecords
  import opened FaqLookup

  /** Ids grow strictly along the rows, so they are unique. */
  predicate IdsIncreasing(rows: seq<FaqRow>) {
    forall j, k :: 0 <= j < k < |rows| ==> rows[j].id < rows[k].id
  }

  class FaqDatabase {
    var hasTable: bool
    var rows: seq<FaqRow>
    var lastId: nat

    ghost predicate Valid()
      reads this
    {
      (!hasTable ==> rows == [] && lastId == 0) &&
      IdsIncreasing(rows) &&
      forall k :: 0 <= k < |rows| ==> 1 <= rows[k].id <= lastId
    }

    /** What a SELECT on `faqs` sees: None while the table does not exist. */
    function Table(): Option<seq<FaqRow>>
      reads this
    {
      if hasTable then Some(rows) else None
    }

    /** A database file that does not exist yet: no `faqs` table. */
    constructor ()
      ensures Valid() && !hasTable && rows == [] && lastId == 0
    {
      hasTable, rows, lastId := false, [], 0;
    }

    /**
     * `init_db`: create the table if it is absent, then insert every sample
     * in order. INSERT OR IGNORE ignores nothing here, since no column is
     * UNIQUE, so every call appends fifteen new rows.
     */
    method InitDb()
      requires Valid()
      modifies this
      ensures Valid() && hasTable
      ensures rows == old(rows) + SeedRows(old(lastId))
      ensures lastId == old(lastId) + 15
      ensures forall k :: old(|rows|) <= k < |rows| ==> WellFormed(rows[k])
      ensures forall j, k :: 0 <= j < old(|rows|) <= k < |rows| ==> rows[j].id < rows[k].id
    {
      // CREATE TABLE IF NOT EXISTS
      hasTable := true;
      ghost var seed := SeedRows(lastId);
      SeedRowsShape(lastId);
      // executemany: one INSERT per sample, each taking the next AUTOINCREMENT id
      var i := 0;
      while i < |SAMPLE_FAQS|
        invariant 0 <= i <= |SAMPLE_FAQS|
        invariant hasTable
        invariant lastId == old(lastId) + i
        invariant rows == old(rows) + seed[..i]
        invariant Valid()
      {
        var sample := SAMPLE_FAQS[i];
        var row := FaqRow(lastId + 1, sample.question, sample.answer, sample.category);
        assert row == seed[i];
        assert seed[..i + 1] == seed[..i] + [seed[i]];
        rows := rows + [row];
        lastId := lastId + 1;
        i := i + 1;
      }
      assert seed[..i] == seed;
    }
  }

  /**
   * Starting the server twice on the same file: the table grows by thirty
   * rows, and every query gets the reply it got after the first start.
   */
  method InitDbTwice(db: FaqDatabase)
    requires db.Valid()
    modifies db
    ensures db.Valid() && db.hasTable && |db.rows| == old(|db.rows|) + 30
    ensures db.rows == old(db.rows) + SeedRows(old(db.lastId)) + SeedRows(old(db.lastId) + 15)
    ensures db.lastId == old(db.lastId) + 30
    ensures forall q :: GetResponse(db.Table(), q) == GetResponse(Some(old(db.rows) + SeedRows(old(db.lastId))), q)
  {
    db.InitDb();
    ghost var once := db.rows;
    ghost var first := SeedRows(old(db.lastId));
    db.InitDb();
    ghost var second := SeedRows(old(db.lastId) + 15);
    SeedRowsShape(old(db.lastId));
    SeedRowsShape(old(db.lastId) + 15);
    assert SameTexts(first, second);
    forall q
      ensures GetResponse(db.Table(), q) == GetResponse(Some(old(db.rows) + first), q)
    {
      AppendedCopyKeepsResponses(old(db.rows), first, second, q);
    }
  }
}
