/**
  The notes table as the router sees it through its service object
  (`getAllNotes`, `insertNote`, `getNoteById`, `deleteNote`, `updateNote`).
  The real service is a thin wrapper over a PostgreSQL table; here the table is
  a sequence of rows in insertion order and a counter standing in for the
  serial id column. Two behaviours of the database layer are ASSUMED here,
  not derived from the router: the next id is fresh and larger than every id
  in use, and an update leaves a column alone when the value given for it is
  `undefined` (knex drops such keys) while writing every other value given,
  null, "" and 0 included.
*/
module NoteStore {
  import opened Wrappers
  import opened JsValues

  /** One row of the notes table. Each column holds the value it was given;
      `dateCreated` is the timestamp the database set on insert, as the
      response renders it. */
  datatype Note = Note(id: nat, noteName: JsValue, content: JsValue, folderId: JsValue, dateCreated: JsValue)

  /** The three-key object `{ note_name, content, folder_id }` that the router
      builds both for an insert and for an update. */
  datatype NoteFields = NoteFields(noteName: JsValue, content: JsValue, folderId: JsValue)

  /** The table's rows, in the order the database returns them, and the
      value the id sequence hands out next. */
  datatype Table = Table(rows: seq<Note>, nextId: nat)

  predicate IdsAscending(rows: seq<Note>) {
    forall i, j | 0 <= i < j < |rows| :: rows[i].id < rows[j].id
  }

  /** Ids are positive, unique (strictly ascending in table order) and below
      the next id the sequence will hand out. */
  predicate TableValid(t: Table) {
    && 1 <= t.nextId
    && IdsAscending(t.rows)
    && forall n | n in t.rows :: 1 <= n.id < t.nextId
  }

  predicate HasId(rows: seq<Note>, id: int) {
    exists n | n in rows :: n.id == id
  }

  /** `where('id', id).first()`: the first row with that id, if any. */
  function Find(rows: seq<Note>, id: int): (r: Option<Note>)
    ensures r.Some? <==> HasId(rows, id)
    ensures r.Some? ==> r.value.id == id && r.value in rows
  {
    if rows == [] then None
    else if rows[0].id == id then Some(rows[0])
    else
      assert forall n | n in rows :: n == rows[0] || n in rows[1..];
      Find(rows[1..], id)
  }

  /** With unique ids the row found is the only row that has the id. */
  lemma {:induction false} FindUnique(rows: seq<Note>, id: int, i: nat)
    requires IdsAscending(rows)
    requires i < |rows| && rows[i].id == id
    ensures Find(rows, id) == Some(rows[i])
  {
    if i > 0 {
      assert rows[0].id < rows[i].id;
      FindUnique(rows[1..], id, i - 1);
    }
  }

  /** `where({ id }).delete()`: every row with that id goes, every other row stays. */
  function Remove(rows: seq<Note>, id: int): (r: seq<Note>)
    ensures forall n :: n in r <==> n in rows && n.id != id
    ensures !HasId(r, id)
    ensures |r| <= |rows|
  {
    if rows == [] then []
    else
      assert forall n | n in rows :: n == rows[0] || n in rows[1..];
      (if rows[0].id == id then [] else [rows[0]]) + Remove(rows[1..], id)
  }

  /** Deleting keeps the other rows in their order: with ascending ids the
      result is ascending too. */
  lemma {:induction false} RemoveKeepsAscending(rows: seq<Note>, id: int)
    requires IdsAscending(rows)
    ensures IdsAscending(Remove(rows, id))
  {
    if rows != [] {
      RemoveKeepsAscending(rows[1..], id);
      var tail := Remove(rows[1..], id);
      forall n | n in tail ensures rows[0].id < n.id {
        var k :| 0 <= k < |rows[1..]| && rows[1..][k] == n;
        assert rows[k + 1] == n;
      }
      assert Remove(rows, id) == (if rows[0].id == id then [] else [rows[0]]) + tail;
    }
  }

  /** Deleting an id that is present and unique removes exactly one row. */
  lemma {:induction false} RemoveOne(rows: seq<Note>, id: int)
    requires IdsAscending(rows) && HasId(rows, id)
    ensures |Remove(rows, id)| == |rows| - 1
  {
    if rows[0].id == id {
      forall n | n in rows[1..] ensures n.id != id {
        var k :| 0 <= k < |rows[1..]| && rows[1..][k] == n;
        assert rows[k + 1] == n;
      }
      RemoveNone(rows[1..], id);
    } else {
      assert forall n | n in rows :: n == rows[0] || n in rows[1..];
      RemoveOne(rows[1..], id);
    }
  }

  /** Deleting an id that no row has changes nothing. */
  lemma {:induction false} RemoveNone(rows: seq<Note>, id: int)
    requires !HasId(rows, id)
    ensures Remove(rows, id) == rows
  {
    if rows != [] {
      assert rows[0] in rows;
      assert forall n | n in rows[1..] :: n in rows;
      RemoveNone(rows[1..], id);
      assert [rows[0]] + rows[1..] == rows;
    }
  }

  /** One column under knex's update: a value given as `undefined` is dropped,
      so the column keeps its value; any other value is written. */
  function Overwrite(current: JsValue, given: JsValue): JsValue {
    if given.Undefined? then current else given
  }

  /** The row after `update(newNoteInfo)`: id and creation date are never written. */
  function ApplyFields(n: Note, f: NoteFields): (r: Note)
    ensures r.id == n.id && r.dateCreated == n.dateCreated
  {
    n.(noteName := Overwrite(n.noteName, f.noteName),
       content := Overwrite(n.content, f.content),
       folderId := Overwrite(n.folderId, f.folderId))
  }

  /** `where({ id }).update(fields)`: the rows with that id are updated, all
      others are left as they are, and the order does not change. */
  function Update(rows: seq<Note>, id: int, f: NoteFields): (r: seq<Note>)
    ensures |r| == |rows|
    ensures forall i | 0 <= i < |rows| ::
      r[i] == if rows[i].id == id then ApplyFields(rows[i], f) else rows[i]
  {
    if rows == [] then []
    else [if rows[0].id == id then ApplyFields(rows[0], f) else rows[0]] + Update(rows[1..], id, f)
  }

  /** The row the database creates for `insert(newNote)`. */
  function NewRow(id: nat, f: NoteFields, now: JsValue): Note {
    Note(id, f.noteName, f.content, f.folderId, now)
  }

  /** `insert(newNote).returning('*')`: the new row goes last under the next
      id, and the id sequence moves on. */
  function Insert(t: Table, f: NoteFields, now: JsValue): Table {
    Table(t.rows + [NewRow(t.nextId, f, now)], t.nextId + 1)
  }

  lemma InsertKeepsValid(t: Table, f: NoteFields, now: JsValue)
    requires TableValid(t)
    ensures TableValid(Insert(t, f, now))
    ensures !HasId(t.rows, t.nextId)
  {
  }

  lemma RemoveKeepsValid(t: Table, id: int)
    requires TableValid(t)
    ensures TableValid(Table(Remove(t.rows, id), t.nextId))
  {
    RemoveKeepsAscending(t.rows, id);
  }

  lemma UpdateKeepsValid(t: Table, id: int, f: NoteFields)
    requires TableValid(t)
    ensures TableValid(Table(Update(t.rows, id, f), t.nextId))
  {
    var u := Update(t.rows, id, f);
    forall n | n in u ensures 1 <= n.id < t.nextId {
      var k :| 0 <= k < |u| && u[k] == n;
      assert t.rows[k] in t.rows;
    }
  }
}
