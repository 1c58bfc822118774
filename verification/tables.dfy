/**
 * One database table as the handlers see it through single SQL statements:
 * rows keyed by an AUTO_INCREMENT primary key, and the next key the table
 * will hand out. Every key in use is below that counter, so an INSERT never
 * reuses a key.
 */
module Tables {
  import opened Options

  datatype TableState<R> = TableState(rows: map<nat, R>, nextId: nat) {
    predicate Valid() {
      forall id | id in rows :: id < nextId
    }
  }

  type Table<R> = t: TableState<R> | t.Valid() witness TableState(map[], 1)

  /** A freshly created table: no rows, AUTO_INCREMENT starting at 1. */
  function Empty<R>(): (t: Table<R>)
    ensures t.rows == map[]
  {
    TableState(map[], 1)
  }

  /** `SELECT ... WHERE <key> = ?`: the row with that key, if any. */
  function Select<R>(t: Table<R>, id: nat): (r: Option<R>)
    ensures r.Some? <==> id in t.rows
    ensures r.Some? ==> r.value == t.rows[id]
  {
    if id in t.rows then Some(t.rows[id]) else None
  }

  /** The result of an INSERT: the new table and `insertId`. */
  datatype Inserted<R> = Inserted(table: Table<R>, id: nat)

  /** `INSERT`: the row is stored under a key no row had before; every other
      row is kept as it was. */
  function Insert<R>(t: Table<R>, row: R): (r: Inserted<R>)
    ensures r.id !in t.rows
    ensures r.table.rows == t.rows[r.id := row]
    ensures r.table.nextId > r.id
  {
    Inserted(TableState(t.rows[t.nextId := row], t.nextId + 1), t.nextId)
  }

  /** The result of an UPDATE or DELETE: the new table and `affectedRows`. */
  datatype Affected<R> = Affected(table: Table<R>, count: nat)

  /** `UPDATE ... WHERE <key> = ?`: `change` rewrites the matched row.
      `affectedRows` counts the rows the key matched (the driver's default
      FOUND_ROWS flag), so it is 1 even when nothing changes. */
  function UpdateById<R>(t: Table<R>, id: nat, change: R -> R): (r: Affected<R>)
    ensures r.count == 0 <==> id !in t.rows
    ensures r.count <= 1
    ensures id !in t.rows ==> r.table == t
    ensures id in t.rows ==> r.table.rows == t.rows[id := change(t.rows[id])]
    ensures r.table.nextId == t.nextId
  {
    if id in t.rows then Affected(t.(rows := t.rows[id := change(t.rows[id])]), 1)
    else Affected(t, 0)
  }

  /** `DELETE ... WHERE <key> = ?`: removes the matched row, if any. */
  function DeleteById<R>(t: Table<R>, id: nat): (r: Affected<R>)
    ensures r.count == 0 <==> id !in t.rows
    ensures r.count <= 1
    ensures r.table.rows == t.rows - {id}
    ensures r.table.nextId == t.nextId
  {
    if id in t.rows then Affected(t.(rows := t.rows - {id}), 1)
    else
      assert t.rows - {id} == t.rows;
      Affected(t, 0)
  }

  /** One row of a result set with its key. */
  datatype Entry<R> = Entry(id: nat, row: R)

  /** The rows with keys in [lo, hi), in ascending key order. */
  function ScanFrom<R>(rows: map<nat, R>, lo: nat, hi: nat): (s: seq<Entry<R>>)
    ensures forall i | 0 <= i < |s| :: lo <= s[i].id < hi && s[i].id in rows && s[i].row == rows[s[i].id]
    decreases hi - lo
  {
    if lo >= hi then []
    else if lo in rows then [Entry(lo, rows[lo])] + ScanFrom(rows, lo + 1, hi)
    else ScanFrom(rows, lo + 1, hi)
  }

  /** Keys strictly ascending, so no row twice. */
  predicate Ascending<R>(s: seq<Entry<R>>) {
    forall i, j | 0 <= i < j < |s| :: s[i].id < s[j].id
  }

  /** A scan lists keys in strictly ascending order. */
  lemma {:induction false} ScanFromSorted<R>(rows: map<nat, R>, lo: nat, hi: nat)
    ensures Ascending(ScanFrom(rows, lo, hi))
    decreases hi - lo
  {
    if lo < hi {
      ScanFromSorted(rows, lo + 1, hi);
      var rest := ScanFrom(rows, lo + 1, hi);
      if lo in rows {
        var s := [Entry(lo, rows[lo])] + rest;
        assert ScanFrom(rows, lo, hi) == s;
        forall i, j | 0 <= i < j < |s| ensures s[i].id < s[j].id {
          assert s[j] == rest[j - 1];
          assert lo + 1 <= rest[j - 1].id;
          if i > 0 {
            assert s[i] == rest[i - 1];
          }
        }
      } else {
        assert ScanFrom(rows, lo, hi) == rest;
      }
    }
  }

  /** A scan misses no key in range. */
  lemma {:induction false} ScanFromComplete<R>(rows: map<nat, R>, lo: nat, hi: nat, id: nat)
    requires id in rows && lo <= id < hi
    ensures exists i :: 0 <= i < |ScanFrom(rows, lo, hi)| && ScanFrom(rows, lo, hi)[i].id == id
    decreases hi - lo
  {
    var s := ScanFrom(rows, lo, hi);
    if id == lo {
      assert s[0].id == id;
    } else {
      ScanFromComplete(rows, lo + 1, hi, id);
      var rest := ScanFrom(rows, lo + 1, hi);
      var k :| 0 <= k < |rest| && rest[k].id == id;
      if lo in rows {
        assert s[k + 1] == rest[k];
      } else {
        assert s[k] == rest[k];
      }
    }
  }

  /** The keys in [lo, hi) that are in use. */
  ghost function KeysBetween<R>(rows: map<nat, R>, lo: nat, hi: nat): set<nat> {
    set id | id in rows && lo <= id < hi
  }

  /** A scan has exactly one entry per key in range. */
  lemma {:induction false} ScanFromCount<R>(rows: map<nat, R>, lo: nat, hi: nat)
    ensures |ScanFrom(rows, lo, hi)| == |KeysBetween(rows, lo, hi)|
    decreases hi - lo
  {
    if lo >= hi {
      assert KeysBetween(rows, lo, hi) == {};
    } else {
      ScanFromCount(rows, lo + 1, hi);
      var rest := KeysBetween(rows, lo + 1, hi);
      if lo in rows {
        assert KeysBetween(rows, lo, hi) == {lo} + rest;
        assert lo !in rest;
      } else {
        assert KeysBetween(rows, lo, hi) == rest;
      }
    }
  }

  /** `SELECT *` without ORDER BY: every row once, taken here in ascending
      key order (the order a primary-key scan returns). */
  function Scan<R>(t: Table<R>): (s: seq<Entry<R>>)
    ensures |s| == |t.rows|
    ensures forall i | 0 <= i < |s| :: s[i].id in t.rows && s[i].row == t.rows[s[i].id]
    ensures Ascending(s)
    ensures forall id | id in t.rows :: exists i :: 0 <= i < |s| && s[i].id == id
  {
    var s := ScanFrom(t.rows, 0, t.nextId);
    ScanFromCount(t.rows, 0, t.nextId);
    assert KeysBetween(t.rows, 0, t.nextId) == t.rows.Keys;
    ScanFromSorted(t.rows, 0, t.nextId);
    forall id | id in t.rows ensures exists i :: 0 <= i < |s| && s[i].id == id {
      ScanFromComplete(t.rows, 0, t.nextId, id);
    }
    s
  }

  /** The first key in [lo, hi), in ascending order, whose row satisfies `p`. */
  function FindFrom<R>(rows: map<nat, R>, p: R -> bool, lo: nat, hi: nat): (r: Option<nat>)
    ensures r.Some? ==> lo <= r.value < hi && r.value in rows && p(rows[r.value])
    ensures r.Some? ==> forall id | id in rows && lo <= id < r.value :: !p(rows[id])
    ensures r.None? ==> forall id | id in rows && lo <= id < hi :: !p(rows[id])
    decreases hi - lo
  {
    if lo >= hi then None
    else if lo in rows && p(rows[lo]) then Some(lo)
    else FindFrom(rows, p, lo + 1, hi)
  }

  /** `SELECT * ... WHERE <column> = ?` followed by `rows[0]`: the row with
      the smallest key among those that satisfy `p`, if any. */
  function FindFirst<R>(t: Table<R>, p: R -> bool): (r: Option<nat>)
    ensures r.None? <==> forall id | id in t.rows :: !p(t.rows[id])
    ensures r.Some? ==> r.value in t.rows && p(t.rows[r.value])
    ensures r.Some? ==> forall id | id in t.rows && id < r.value :: !p(t.rows[id])
  {
    FindFrom(t.rows, p, 0, t.nextId)
  }

  /** Deleting a key makes it unreadable; other keys read as before. */
  lemma SelectAfterDelete<R>(t: Table<R>, id: nat, other: nat)
    ensures Select(DeleteById(t, id).table, id).None?
    ensures other != id ==> Select(DeleteById(t, id).table, other) == Select(t, other)
  {
  }

  /** A freshly inserted row reads back, and the insert leaves other keys alone. */
  lemma SelectAfterInsert<R>(t: Table<R>, row: R, other: nat)
    ensures Select(Insert(t, row).table, Insert(t, row).id) == Some(row)
    ensures other != Insert(t, row).id ==> Select(Insert(t, row).table, other) == Select(t, other)
  {
  }

  /** A list built by viewing each scanned entry shows every row of the
      table: what makes a full-table SELECT complete once its rows are
      mapped to response objects. */
  lemma ViewsComplete<R, V>(t: Table<R>, view: (nat, R) -> V, items: seq<V>)
    requires |items| == |Scan(t)|
    requires forall i | 0 <= i < |items| :: items[i] == view(Scan(t)[i].id, Scan(t)[i].row)
    ensures forall id | id in t.rows :: view(id, t.rows[id]) in items
  {
    var s := Scan(t);
    forall id | id in t.rows ensures view(id, t.rows[id]) in items {
      var i :| 0 <= i < |s| && s[i].id == id;
      assert items[i] == view(id, t.rows[id]);
    }
  }
}
