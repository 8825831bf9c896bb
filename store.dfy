/**
 * The applied-migrations table (`schema_migrations`) as a sequence of rows,
 * with the three things the engine does to it: `find` + `Set::combine`
 * (Created), `save` (Inserted) and `deleteAll` (Deleted).
 */
module Store {
  import opened Wrappers

  /** What identifies an applied migration: its version in the legacy layout
      (no `class` column), otherwise its class name, which is null when the
      mapping had no entry for the version being recorded. */
  datatype Key = ByVersion(version: int) | ByClass(className: Option<string>)

  /** One row of the table; `created` is the stamp the store sets on insert. */
  datatype Row = Row(key: Key, typ: string, created: int)

  predicate Matches(row: Row, typ: string, key: Key) {
    row.typ == typ && row.key == key
  }

  /** `Set::combine` over the rows of type `typ`, looked up at `key`: the
      created stamp of the last such row, None when there is none. */
  function Created(rows: seq<Row>, typ: string, key: Key): Option<int> {
    if rows == [] then None
    else if Matches(rows[|rows| - 1], typ, key) then Some(rows[|rows| - 1].created)
    else Created(rows[..|rows| - 1], typ, key)
  }

  /** A key reads as applied exactly when some row of that type carries it,
      and it reads the stamp of the last such row. */
  lemma {:induction false} CreatedFindsLastRow(rows: seq<Row>, typ: string, key: Key)
    ensures Created(rows, typ, key).Some? <==> exists j :: 0 <= j < |rows| && Matches(rows[j], typ, key)
    ensures Created(rows, typ, key).Some? ==>
              exists j :: 0 <= j < |rows| && Matches(rows[j], typ, key) && rows[j].created == Created(rows, typ, key).value
                          && forall k :: j < k < |rows| ==> !Matches(rows[k], typ, key)
  {
    if rows != [] {
      var init := rows[..|rows| - 1];
      CreatedFindsLastRow(init, typ, key);
      assert forall j :: 0 <= j < |init| ==> init[j] == rows[j];
    }
  }

  /** `save` of a new row for `key` and `typ`, stamped `now`. */
  function Inserted(rows: seq<Row>, key: Key, typ: string, now: int): seq<Row> {
    rows + [Row(key, typ, now)]
  }

  /** `deleteAll` on type and key: every matching row removed, zero matches
      being no error; the other rows stay, in order. */
  function Deleted(rows: seq<Row>, typ: string, key: Key): (r: seq<Row>)
    ensures forall row :: row in r <==> row in rows && !Matches(row, typ, key)
    ensures |r| <= |rows|
  {
    if rows == [] then []
    else
      var r := Deleted(rows[..|rows| - 1], typ, key);
      var last := rows[|rows| - 1];
      assert rows == rows[..|rows| - 1] + [last];
      if Matches(last, typ, key) then r else r + [last]
  }

  /** After a save, the saved key reads as applied with the new stamp, and
      every other (type, key) reads as before. */
  lemma InsertedCreated(rows: seq<Row>, key: Key, typ: string, now: int, t: string, k: Key)
    ensures Created(Inserted(rows, key, typ, now), t, k)
              == if t == typ && k == key then Some(now) else Created(rows, t, k)
  {
    var r := Inserted(rows, key, typ, now);
    assert r[..|r| - 1] == rows;
  }

  /** After a deleteAll, the deleted key reads as not applied, and every other
      (type, key) reads as before. */
  lemma {:induction false} DeletedCreated(rows: seq<Row>, typ: string, key: Key, t: string, k: Key)
    ensures Created(Deleted(rows, typ, key), t, k)
              == if t == typ && k == key then None else Created(rows, t, k)
  {
    if rows != [] {
      var init := rows[..|rows| - 1];
      var last := rows[|rows| - 1];
      DeletedCreated(init, typ, key, t, k);
      var r := Deleted(init, typ, key);
      if !Matches(last, typ, key) {
        assert (r + [last])[..|r + [last]| - 1] == r;
      }
    }
  }
}
