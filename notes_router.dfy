/**
  The request layer of the notes resource: `serializeNote`, the validation of
  POST and PATCH bodies, the existence guard on `/:note_id`, and the five
  handlers. Each handler's effect is first given as a function of the table
  (`ListOutcome`, `PostOutcome`, `NoteRouteOutcome`); the class `Router` then
  runs the handlers step by step against its own table and is proved to
  produce exactly those outcomes.
*/
module NotesRouter {
  import opened Wrappers
  import opened JsValues
  import opened Decimal
  import opened NoteStore

  /** What a handler sends: the status, the JSON body (none for 204) and the
      Location header if one was set. */
  datatype Response = Response(status: int, body: Option<JsValue>, location: Option<string>)

  /** The requests that reach `/:note_id`; PATCH carries its parsed body. */
  datatype NoteRequest = Get | Delete | Patch(body: map<string, JsValue>)

  /** `{ error: { message } }` */
  function ErrorJson(message: string): JsValue {
    Obj(map["error" := Obj(map["message" := Str(message)])])
  }

  function ErrorResponse(status: int, message: string): Response {
    Response(status, Some(ErrorJson(message)), None)
  }

  function MissingMessage(key: string): string {
    "Missing '" + key + "' in request body"
  }

  const NotFoundMessage: string := "note not found"
  const NoFieldsMessage: string := "Request must contain name, content, or folder_id"

  /** The keys of a serialised note. */
  const NoteKeys: set<string> := {"id", "note_name", "content", "folder_id", "date_created"}

  /** `serializeNote`: the response shape of a row. `xss` is the sanitiser,
      applied to the two text columns only. */
  function SerializeNote(xss: JsValue -> string, n: Note): (r: JsValue)
    ensures r.Obj? && r.fields.Keys == NoteKeys
    ensures r.fields["id"] == Num(n.id)
    ensures r.fields["note_name"] == Str(xss(n.noteName))
    ensures r.fields["content"] == Str(xss(n.content))
    ensures r.fields["folder_id"] == n.folderId
    ensures r.fields["date_created"] == n.dateCreated
  {
    Obj(map[
      "id" := Num(n.id),
      "note_name" := Str(xss(n.noteName)),
      "content" := Str(xss(n.content)),
      "folder_id" := n.folderId,
      "date_created" := n.dateCreated])
  }

  /** `notes.map(serializeNote)` */
  function SerializeAll(xss: JsValue -> string, rows: seq<Note>): (r: seq<JsValue>)
    ensures |r| == |rows|
    ensures forall i | 0 <= i < |rows| :: r[i] == SerializeNote(xss, rows[i])
  {
    if rows == [] then [] else [SerializeNote(xss, rows[0])] + SerializeAll(xss, rows[1..])
  }

  /** The keys of the three-key literal, in the order it lists them. */
  const RequiredKeys: seq<string> := ["note_name", "content", "folder_id"]

  /** `const { note_name, content, folder_id } = obj; { note_name, content, folder_id }` */
  function FieldsOf(obj: JsValue): NoteFields
    requires !IsNullish(obj)
  {
    NoteFields(Prop(obj, RequiredKeys[0]), Prop(obj, RequiredKeys[1]), Prop(obj, RequiredKeys[2]))
  }

  /** Destructuring reads the three keys only: other keys of the object make
      no difference. */
  lemma FieldsOfIgnoresOtherKeys(m: map<string, JsValue>, extra: map<string, JsValue>)
    requires forall j | 0 <= j < |RequiredKeys| :: RequiredKeys[j] !in extra
    ensures FieldsOf(Obj(m + extra)) == FieldsOf(Obj(m))
  {
  }

  /** `Object.entries(newNote)`: the keys in the order the literal lists them. */
  function Entries(f: NoteFields): seq<(string, JsValue)> {
    [(RequiredKeys[0], f.noteName), (RequiredKeys[1], f.content), (RequiredKeys[2], f.folderId)]
  }

  /** `Object.values(updatedNote)` */
  function Values(f: NoteFields): seq<JsValue> {
    [f.noteName, f.content, f.folderId]
  }

  /** The key of the first entry whose value is `== null`, if any. */
  function FirstMissing(entries: seq<(string, JsValue)>): (r: Option<string>)
    ensures r.None? <==> forall i | 0 <= i < |entries| :: !IsNullish(entries[i].1)
  {
    if entries == [] then None
    else if IsNullish(entries[0].1) then Some(entries[0].0)
    else FirstMissing(entries[1..])
  }

  /** The key reported is that of the first missing entry: every entry before
      it is present. */
  lemma {:induction false} FirstMissingIsFirst(entries: seq<(string, JsValue)>, k: nat)
    requires k < |entries| && IsNullish(entries[k].1)
    requires forall j | 0 <= j < k :: !IsNullish(entries[j].1)
    ensures FirstMissing(entries) == Some(entries[k].0)
  {
    if k > 0 {
      FirstMissingIsFirst(entries[1..], k - 1);
    }
  }

  /** The POST validation loop: scan the entries in order and stop at the
      first one that is `== null`. */
  method FindMissing(entries: seq<(string, JsValue)>) returns (missing: Option<string>)
    ensures missing == FirstMissing(entries)
  {
    for i := 0 to |entries|
      invariant FirstMissing(entries) == FirstMissing(entries[i..])
    {
      assert entries[i..][1..] == entries[i + 1..];
      var (key, value) := entries[i];
      if IsNullish(value) {
        return Some(key);
      }
    }
    assert entries[|entries|..] == [];
    return None;
  }

  /** `path.posix.join(originalUrl, `/${id}`)` for a URL without a trailing slash. */
  function Location(url: string, id: nat): string {
    url + "/" + NatToString(id)
  }

  /** The id at the end of a Location header under `url`, if it is one. */
  function ParseLocation(url: string, loc: string): Option<nat> {
    var n := |url| + 1;
    if |loc| > n && loc[..n] == url + "/" && AllDigits(loc[n..]) then Some(ParseDigits(loc[n..]))
    else None
  }

  lemma LocationRoundTrip(url: string, id: nat)
    ensures ParseLocation(url, Location(url, id)) == Some(id)
  {
    var loc := Location(url, id);
    assert loc[..|url| + 1] == url + "/";
    assert loc[|url| + 1..] == NatToString(id);
    ParseNatToString(id);
  }

  /** GET / */
  function ListOutcome(t: Table, xss: JsValue -> string): Response {
    Response(200, Some(Arr(SerializeAll(xss, t.rows))), None)
  }

  /** POST /: 400 naming the first missing key, or insert and 201 with the
      serialised row and its Location. */
  function PostOutcome(t: Table, body: map<string, JsValue>, url: string, now: JsValue,
                       xss: JsValue -> string): (Response, Table)
  {
    var f := FieldsOf(Obj(body));
    match FirstMissing(Entries(f))
    case Some(key) => (ErrorResponse(400, MissingMessage(key)), t)
    case None =>
      var note := NewRow(t.nextId, f, now);
      (Response(201, Some(SerializeNote(xss, note)), Some(Location(url, note.id))), Insert(t, f, now))
  }

  /** A PATCH body can be read when its `updatedNote` is not null or undefined;
      otherwise the destructuring throws. */
  predicate PatchReadable(body: map<string, JsValue>) {
    !IsNullish(Field(body, "updatedNote"))
  }

  function PatchFields(body: map<string, JsValue>): NoteFields
    requires PatchReadable(body)
  {
    FieldsOf(Field(body, "updatedNote"))
  }

  /** The PATCH handler once the guard has passed. */
  function PatchOutcome(t: Table, id: int, body: map<string, JsValue>): (Response, Table)
    requires PatchReadable(body)
  {
    var f := PatchFields(body);
    if CountTruthy(Values(f)) == 0 then (ErrorResponse(400, NoFieldsMessage), t)
    else (Response(204, None, None), Table(Update(t.rows, id, f), t.nextId))
  }

  /** What `/:note_id` demands: a PATCH that gets past the guard has a readable body. */
  predicate RouteReady(t: Table, req: NoteRequest, id: int) {
    req.Patch? && HasId(t.rows, id) ==> PatchReadable(req.body)
  }

  /** `/:note_id`: the `.all` guard answers 404 when the id is unknown;
      otherwise the verb's handler runs on the note found. */
  function NoteRouteOutcome(t: Table, req: NoteRequest, id: int, xss: JsValue -> string): (Response, Table)
    requires RouteReady(t, req, id)
  {
    match Find(t.rows, id)
    case None => (ErrorResponse(404, NotFoundMessage), t)
    case Some(note) =>
      match req
      case Get => (Response(200, Some(SerializeNote(xss, note)), None), t)
      case Delete => (Response(204, None, None), Table(Remove(t.rows, id), t.nextId))
      case Patch(body) => PatchOutcome(t, id, body)
  }

  /** The notes router bound to its table. */
  class Router {
    var rows: seq<Note>
    var nextId: nat

    function State(): Table
      reads this
    {
      Table(rows, nextId)
    }

    ghost predicate Valid()
      reads this
    {
      TableValid(State())
    }

    constructor ()
      ensures Valid() && rows == [] && nextId == 1
    {
      rows := [];
      nextId := 1;
    }

    /** `notesService.getNoteById` */
    method GetNoteById(id: int) returns (note: Option<Note>)
      ensures note.Some? <==> HasId(rows, id)
      ensures note.Some? ==> note.value.id == id && note.value in rows
      ensures Valid() && note.Some? ==> forall n | n in rows && n.id == id :: n == note.value
    {
      note := Find(rows, id);
      if note.Some? && Valid() {
        forall n | n in rows && n.id == id ensures n == note.value {
          var k :| 0 <= k < |rows| && rows[k] == n;
          FindUnique(rows, id, k);
        }
      }
    }

    /** `notesService.insertNote` */
    method InsertNote(f: NoteFields, now: JsValue) returns (note: Note)
      requires Valid()
      modifies this
      ensures Valid()
      ensures note == NewRow(old(nextId), f, now) && !HasId(old(rows), note.id)
      ensures rows == old(rows) + [note] && nextId == old(nextId) + 1
    {
      InsertKeepsValid(State(), f, now);
      note := NewRow(nextId, f, now);
      rows := rows + [note];
      nextId := nextId + 1;
    }

    /** `notesService.deleteNote` */
    method DeleteNote(id: int)
      requires Valid()
      modifies this
      ensures Valid()
      ensures rows == Remove(old(rows), id) && nextId == old(nextId)
    {
      RemoveKeepsValid(State(), id);
      rows := Remove(rows, id);
    }

    /** `notesService.updateNote` */
    method UpdateNote(id: int, f: NoteFields)
      requires Valid()
      modifies this
      ensures Valid()
      ensures rows == Update(old(rows), id, f) && nextId == old(nextId)
    {
      UpdateKeepsValid(State(), id, f);
      rows := Update(rows, id, f);
    }

    /** GET / */
    method ListNotes(xss: JsValue -> string) returns (resp: Response)
      ensures resp == ListOutcome(State(), xss)
      ensures resp.status == 200 && resp.location.None?
      ensures resp.body.Some? && resp.body.value.Arr?
      ensures var items := resp.body.value.items;
        |items| == |rows| && forall i | 0 <= i < |rows| :: items[i] == SerializeNote(xss, rows[i])
    {
      var notes := rows;
      resp := Response(200, Some(Arr(SerializeAll(xss, notes))), None);
    }

    /** POST / */
    method PostNote(body: map<string, JsValue>, originalUrl: string, now: JsValue,
                    xss: JsValue -> string) returns (resp: Response)
      requires Valid()
      modifies this
      ensures Valid()
      ensures (resp, State()) == PostOutcome(old(State()), body, originalUrl, now, xss)
    {
      var newNote := FieldsOf(Obj(body));
      var missing := FindMissing(Entries(newNote));
      if missing.Some? {
        return ErrorResponse(400, MissingMessage(missing.value));
      }
      var note := InsertNote(newNote, now);
      resp := Response(201, Some(SerializeNote(xss, note)), Some(Location(originalUrl, note.id)));
    }

    /** GET, DELETE and PATCH on /:note_id, behind the existence guard. */
    method NoteRoute(req: NoteRequest, noteId: int, xss: JsValue -> string) returns (resp: Response)
      requires Valid() && RouteReady(State(), req, noteId)
      modifies this
      ensures Valid()
      ensures (resp, State()) == NoteRouteOutcome(old(State()), req, noteId, xss)
    {
      var note := GetNoteById(noteId);
      if note.None? {
        return ErrorResponse(404, NotFoundMessage);
      }
      match req
      case Get =>
        resp := Response(200, Some(SerializeNote(xss, note.value)), None);
      case Delete =>
        DeleteNote(noteId);
        resp := Response(204, None, None);
      case Patch(body) =>
        resp := PatchNote(noteId, body);
    }

    /** The PATCH handler once the guard has passed. */
    method PatchNote(noteId: int, body: map<string, JsValue>) returns (resp: Response)
      requires Valid() && PatchReadable(body)
      modifies this
      ensures Valid()
      ensures (resp, State()) == PatchOutcome(old(State()), noteId, body)
    {
      var updatedNote := PatchFields(body);
      var numberOfValues := CountTruthy(Values(updatedNote));
      if numberOfValues == 0 {
        return ErrorResponse(400, NoFieldsMessage);
      }
      UpdateNote(noteId, updatedNote);
      resp := Response(204, None, None);
    }
  }
}
