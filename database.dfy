/**
 `DatabaseManager`: the `visitors` table as the state of one object. The
 three writing statements (INSERT, UPDATE, DELETE) are methods that change
 that state; the reading statements are the functions of module Visitors,
 applied to `rows`.
 */
module Store {
  import opened Wrappers
  import opened Timestamps
  import opened Visitors

  /** The largest rowid SQLite hands out, 2^63 - 1. */
  const MaxRowId: int := 0x7FFF_FFFF_FFFF_FFFF

  class DatabaseManager {
    /** The rows of `visitors`, by id. */
    var rows: Table
    /** The `sqlite_sequence` entry AUTOINCREMENT keeps for the table: the
        largest id ever handed out, 0 before the first insert. */
    var sequence: int
    /** Every id ever handed out, deleted rows included. */
    ghost var issued: set<int>

    ghost predicate Valid()
      reads this
    {
      0 <= sequence <= MaxRowId &&
      (forall k :: k in issued ==> 1 <= k <= sequence) &&
      (forall k :: k in rows ==> k in issued) &&
      WellStamped(rows)
    }

    /** `init_db` on a database without the table: CREATE TABLE makes it
        empty, and AUTOINCREMENT has handed out nothing yet. */
    constructor ()
      ensures Valid()
      ensures rows == map[] && sequence == 0 && issued == {}
    {
      rows := map[];
      sequence := 0;
      issued := {};
    }

    /** `add_visitor(data)` with the clock reading `now`: the new row gets
        the id after the largest one ever used and `created_at = now`. Once
        that id would pass the largest rowid the INSERT fails with
        SQLITE_FULL and nothing changes. */
    method AddVisitor(v: Visitor, now: string) returns (id: Option<int>)
      requires Valid() && IsTimestamp(now)
      modifies this
      ensures Valid()
      ensures id.None? <==> old(sequence) == MaxRowId
      ensures id.None? ==> rows == old(rows) && sequence == old(sequence) && issued == old(issued)
      ensures id.Some? ==>
        && (forall k :: k in old(issued) ==> k < id.value)
        && id.value !in old(rows)
        && rows == old(rows)[id.value := Row(v, now)]
        && id.value == old(sequence) + 1
        && sequence == id.value
        && issued == old(issued) + {id.value}
      ensures id.Some? ==>
        GetVisitorById(rows, id.value) == Some(ToRecord(id.value, Row(v, now)))
    {
      if sequence == MaxRowId {
        return None;
      }
      var k := sequence + 1;
      rows := rows[k := Row(v, now)];
      sequence := k;
      issued := issued + {k};
      id := Some(k);
    }

    /** `update_visitor(visitor_id, data)`: the seven submitted columns of
        the row with that id are replaced; its id and `created_at` stay.
        No row has that id: nothing changes. */
    method UpdateVisitor(id: int, v: Visitor)
      requires Valid()
      modifies this
      ensures Valid()
      ensures id in old(rows) ==> rows == old(rows)[id := Row(v, old(rows)[id].createdAt)]
      ensures id !in old(rows) ==> rows == old(rows)
      ensures sequence == old(sequence) && issued == old(issued)
      ensures rows.Keys == old(rows.Keys)
      ensures forall k :: k in rows ==> rows[k].createdAt == old(rows)[k].createdAt
    {
      if id in rows {
        rows := rows[id := Row(v, rows[id].createdAt)];
      }
    }

    /** `delete_visitor(visitor_id)`: the row with that id is gone, if there
        was one. The sequence keeps its value, so the id is never handed out
        again. */
    method DeleteVisitor(id: int)
      requires Valid()
      modifies this
      ensures Valid()
      ensures rows == old(rows) - {id}
      ensures sequence == old(sequence) && issued == old(issued)
    {
      rows := rows - {id};
    }
  }

  /** A deleted id is not reused: deleting a row and then adding one gives
      the new row an id the deleted one never had, and leaves every other
      row as it was. */
  method DeleteThenAdd(db: DatabaseManager, gone: int, v: Visitor, now: string)
      returns (id: Option<int>)
    requires db.Valid() && IsTimestamp(now) && gone in db.rows
    modifies db
    ensures db.Valid()
    ensures gone !in db.rows
    ensures id.Some? ==> id.value != gone && db.rows == (old(db.rows) - {gone})[id.value := Row(v, now)]
  {
    db.DeleteVisitor(gone);
    id := db.AddVisitor(v, now);
  }
}
