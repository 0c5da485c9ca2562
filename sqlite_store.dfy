/** The embedded SQL backend: the `pastes` table held by one connection, changed in place
    by INSERT, UPDATE and DELETE. Each consume runs inside one transaction, which is
    modelled as one method call that no other call interleaves with. */
module SqliteStore {
  import opened Wrappers
  import opened PasteContract

  /** The error better-sqlite3 raises for an INSERT that repeats a primary key. */
  datatype SqliteError = PrimaryKeyConstraint

  class SqlitePasteDb {
    /** The `pastes` table, keyed by `id TEXT PRIMARY KEY`. */
    var pastes: Table

    ghost predicate Valid()
      reads this
    {
      WellKeyed(pastes)
    }

    constructor ()
      ensures Valid() && pastes == map[]
    {
      pastes := map[];
    }

    /** `createPaste`: INSERT the row; a row with the same id already present violates
        the primary key and nothing is written. */
    method CreatePaste(row: PasteRow) returns (r: Outcome<SqliteError>)
      requires Valid()
      modifies this
      ensures Valid()
      ensures r.Pass? <==> row.id !in old(pastes)
      ensures pastes == if r.Pass? then old(pastes)[row.id := row] else old(pastes)
    {
      if row.id in pastes {
        return Fail(PrimaryKeyConstraint);
      }
      pastes := pastes[row.id := row];
      return Pass;
    }

    /** `consumePasteById`: the body of the transaction, one atomic read-check-mutate. */
    method ConsumePasteById(id: string, nowMs: int) returns (r: Option<PasteRow>)
      requires Valid()
      modifies this
      ensures Valid()
      ensures Step(pastes, r) == Consume(old(pastes), id, nowMs)
      ensures r.Some? ==> r.value.id == id
    {
      if id !in pastes {
        return None;
      }
      var row := pastes[id];
      if row.expiresAtMs.Some? && nowMs >= row.expiresAtMs.value {
        pastes := pastes - {id};
        return None;
      }
      if row.remainingViews.Some? {
        if row.remainingViews.value <= 0 {
          pastes := pastes - {id};
          return None;
        }
        var nextViews := row.remainingViews.value - 1;
        pastes := pastes[id := pastes[id].(remainingViews := Some(nextViews))];
        return Some(row.(remainingViews := Some(nextViews)));
      }
      return Some(row);
    }
  }

  /** What a client of the class can rely on: created with two views at time `t`, the
      paste is served with 1 view left, then 0, then it is gone. */
  method TwoViewsScenario(t: int)
  {
    var db := new SqlitePasteDb();
    var created := db.CreatePaste(PasteRow("abcdefghij", "hello", t, None, Some(2)));
    assert created.Pass?;
    var r1 := db.ConsumePasteById("abcdefghij", t);
    assert r1 == Some(PasteRow("abcdefghij", "hello", t, None, Some(1)));
    var r2 := db.ConsumePasteById("abcdefghij", t);
    assert r2 == Some(PasteRow("abcdefghij", "hello", t, None, Some(0)));
    var r3 := db.ConsumePasteById("abcdefghij", t);
    assert r3.None? && db.pastes == map[];
  }
}
