/**
  What the notes router promises its clients, stated over the handler
  outcomes of module NotesRouter.
*/
module NotesRouterProperties {
  import opened Wrappers
  import opened JsValues
  import opened Decimal
  import opened NoteStore
  import opened NotesRouter

  /** A POST whose k-th required key is null or undefined, the earlier ones
      being present, is answered 400 naming that key and inserts nothing. */
  lemma PostRejectsFirstMissing(t: Table, body: map<string, JsValue>, url: string, now: JsValue,
                                xss: JsValue -> string, k: nat)
    requires k < 3 && IsNullish(Field(body, RequiredKeys[k]))
    requires forall j | 0 <= j < k :: !IsNullish(Field(body, RequiredKeys[j]))
    ensures PostOutcome(t, body, url, now, xss) == (ErrorResponse(400, MissingMessage(RequiredKeys[k])), t)
  {
    var entries := Entries(FieldsOf(Obj(body)));
    forall j | 0 <= j < 3 ensures entries[j] == (RequiredKeys[j], Field(body, RequiredKeys[j])) { }
    FirstMissingIsFirst(entries, k);
  }

  /** A POST in which no required key is null or undefined (an empty string,
      0 or false included) is answered 201: the new row goes last under a
      fresh id, the body is that row serialised, and the Location ends in its id. */
  lemma PostInsertsPresentFields(t: Table, body: map<string, JsValue>, url: string, now: JsValue,
                                 xss: JsValue -> string)
    requires TableValid(t)
    requires forall j | 0 <= j < 3 :: !IsNullish(Field(body, RequiredKeys[j]))
    ensures var (r, t') := PostOutcome(t, body, url, now, xss);
      var note := Note(t.nextId, Field(body, "note_name"), Field(body, "content"), Field(body, "folder_id"), now);
      && r == Response(201, Some(SerializeNote(xss, note)), Some(Location(url, t.nextId)))
      && t'.rows == t.rows + [note]
      && !HasId(t.rows, note.id)
      && TableValid(t')
  {
    assert !IsNullish(Field(body, RequiredKeys[0]));
    assert !IsNullish(Field(body, RequiredKeys[1]));
    assert !IsNullish(Field(body, RequiredKeys[2]));
    InsertKeepsValid(t, FieldsOf(Obj(body)), now);
  }

  /** Only null and undefined are missing for POST: a note named "" with
      content "" in folder 0 is inserted. */
  lemma PostAcceptsEmptyAndZero(t: Table, url: string, now: JsValue, xss: JsValue -> string)
    requires TableValid(t)
    ensures var body := map["note_name" := Str(""), "content" := Str(""), "folder_id" := Num(0)];
      PostOutcome(t, body, url, now, xss).0.status == 201
  {
    var body := map["note_name" := Str(""), "content" := Str(""), "folder_id" := Num(0)];
    PostInsertsPresentFields(t, body, url, now, xss);
  }

  /** The Location of a created note names its id, and a GET of that id
      returns the very body the POST returned, with the table unchanged. */
  lemma PostThenGet(t: Table, body: map<string, JsValue>, url: string, now: JsValue, xss: JsValue -> string)
    requires TableValid(t)
    requires PostOutcome(t, body, url, now, xss).0.status == 201
    ensures var (r, t') := PostOutcome(t, body, url, now, xss);
      && r.location.Some?
      && ParseLocation(url, r.location.value) == Some(t.nextId)
      && r.body.Some? && r.body.value.Obj? && r.body.value.fields["id"] == Num(t.nextId)
      && NoteRouteOutcome(t', Get, t.nextId, xss) == (Response(200, r.body, None), t')
  {
    var f := FieldsOf(Obj(body));
    assert FirstMissing(Entries(f)).None?;
    var t' := Insert(t, f, now);
    InsertKeepsValid(t, f, now);
    LocationRoundTrip(url, t.nextId);
    FindUnique(t'.rows, t.nextId, |t.rows|);
  }

  /** POST reads nothing but the three keys. */
  lemma PostIgnoresOtherKeys(t: Table, body: map<string, JsValue>, extra: map<string, JsValue>,
                             url: string, now: JsValue, xss: JsValue -> string)
    requires forall j | 0 <= j < 3 :: RequiredKeys[j] !in extra
    ensures PostOutcome(t, body + extra, url, now, xss) == PostOutcome(t, body, url, now, xss)
  {
    FieldsOfIgnoresOtherKeys(body, extra);
  }

  /** The guard: GET, DELETE or PATCH of an id no note has is answered
      404 "note not found" and the table is left as it is, whatever the body. */
  lemma UnknownIdIsNotFound(t: Table, req: NoteRequest, id: int, xss: JsValue -> string)
    requires !HasId(t.rows, id)
    ensures RouteReady(t, req, id)
    ensures NoteRouteOutcome(t, req, id, xss) == (ErrorResponse(404, NotFoundMessage), t)
  {
  }

  /** GET of a present id is answered 200 with that note serialised. */
  lemma GetReturnsThatNote(t: Table, id: int, xss: JsValue -> string, i: nat)
    requires TableValid(t) && i < |t.rows| && t.rows[i].id == id
    ensures NoteRouteOutcome(t, Get, id, xss) == (Response(200, Some(SerializeNote(xss, t.rows[i])), None), t)
  {
    FindUnique(t.rows, id, i);
  }

  /** DELETE of a present id is answered 204 and removes exactly that note:
      one row fewer, the others kept in order, and the listing afterwards is
      the old listing without it. */
  lemma DeleteRemovesThatNote(t: Table, id: int, xss: JsValue -> string)
    requires TableValid(t) && HasId(t.rows, id)
    ensures var (r, t') := NoteRouteOutcome(t, Delete, id, xss);
      && r == Response(204, None, None)
      && t'.nextId == t.nextId
      && |t'.rows| == |t.rows| - 1
      && (forall n :: n in t'.rows <==> n in t.rows && n.id != id)
      && TableValid(t')
      && ListOutcome(t', xss) == Response(200, Some(Arr(SerializeAll(xss, Remove(t.rows, id)))), None)
  {
    RemoveOne(t.rows, id);
    RemoveKeepsValid(t, id);
  }

  /** PATCH in which none of the three keys of `updatedNote` is truthy (absent,
      null, "", 0 or false) is answered 400 and changes nothing. */
  lemma PatchWithoutValuesRejected(t: Table, body: map<string, JsValue>, id: int, xss: JsValue -> string)
    requires HasId(t.rows, id) && PatchReadable(body)
    requires forall j | 0 <= j < 3 :: !Truthy(Prop(Field(body, "updatedNote"), RequiredKeys[j]))
    ensures NoteRouteOutcome(t, Patch(body), id, xss) == (ErrorResponse(400, NoFieldsMessage), t)
  {
    var v := Values(PatchFields(body));
    forall j | 0 <= j < 3 ensures !Truthy(v[j]) {
      assert v[j] == Prop(Field(body, "updatedNote"), RequiredKeys[j]);
    }
  }

  /** PATCH with at least one truthy key is answered 204 and applies the three
      values to that note alone: every other row, the order and the id
      sequence stay as they were. */
  lemma PatchUpdatesThatNote(t: Table, body: map<string, JsValue>, id: int, xss: JsValue -> string)
    requires TableValid(t) && HasId(t.rows, id) && PatchReadable(body)
    requires exists j | 0 <= j < 3 :: Truthy(Prop(Field(body, "updatedNote"), RequiredKeys[j]))
    ensures var (r, t') := NoteRouteOutcome(t, Patch(body), id, xss);
      && r == Response(204, None, None)
      && t'.nextId == t.nextId
      && |t'.rows| == |t.rows|
      && (forall i | 0 <= i < |t.rows| ::
            t'.rows[i] == if t.rows[i].id == id then ApplyFields(t.rows[i], PatchFields(body)) else t.rows[i])
      && TableValid(t')
  {
    var j :| 0 <= j < 3 && Truthy(Prop(Field(body, "updatedNote"), RequiredKeys[j]));
    var v := Values(PatchFields(body));
    assert v[j] == Prop(Field(body, "updatedNote"), RequiredKeys[j]);
    UpdateKeepsValid(t, id, PatchFields(body));
  }

  /** A PATCH that supplies only `note_name` changes the name and leaves the
      content, folder, id and creation date of the note as they were. */
  lemma PatchOfNameKeepsOtherColumns(t: Table, id: int, name: JsValue, xss: JsValue -> string, i: nat)
    requires TableValid(t) && i < |t.rows| && t.rows[i].id == id && Truthy(name)
    ensures var body := map["updatedNote" := Obj(map["note_name" := name])];
      var (r, t') := NoteRouteOutcome(t, Patch(body), id, xss);
      && r.status == 204
      && t'.rows[i] == t.rows[i].(noteName := name)
      && NoteRouteOutcome(t', Get, id, xss).0 == Response(200, Some(SerializeNote(xss, t.rows[i].(noteName := name))), None)
  {
    var body := map["updatedNote" := Obj(map["note_name" := name])];
    assert Truthy(Prop(Field(body, "updatedNote"), RequiredKeys[0]));
    assert t.rows[i] in t.rows;
    PatchUpdatesThatNote(t, body, id, xss);
    var t' := NoteRouteOutcome(t, Patch(body), id, xss).1;
    GetReturnsThatNote(t', id, xss, i);
  }

  /** A PATCH with a truthy key writes the other two keys even when they are
      falsy but defined: `{ note_name: "x", content: "" }` empties the content. */
  lemma PatchWritesDefinedFalsyValues(n: Note, name: JsValue)
    requires Truthy(name)
    ensures var f := FieldsOf(Obj(map["note_name" := name, "content" := Str("")]));
      CountTruthy(Values(f)) == 1 && ApplyFields(n, f).content == Str("") && ApplyFields(n, f).folderId == n.folderId
  {
  }

  /** PATCH reads only the three keys of `updatedNote`: other keys of the body
      and of `updatedNote` make no difference. */
  lemma PatchIgnoresOtherKeys(t: Table, inner: map<string, JsValue>, innerExtra: map<string, JsValue>,
                              outerExtra: map<string, JsValue>, id: int, xss: JsValue -> string)
    requires forall j | 0 <= j < 3 :: RequiredKeys[j] !in innerExtra
    requires "updatedNote" !in outerExtra
    ensures var plain := map["updatedNote" := Obj(inner)];
      var noisy := map["updatedNote" := Obj(inner + innerExtra)] + outerExtra;
      NoteRouteOutcome(t, Patch(noisy), id, xss) == NoteRouteOutcome(t, Patch(plain), id, xss)
  {
    var plain := map["updatedNote" := Obj(inner)];
    var noisy := map["updatedNote" := Obj(inner + innerExtra)] + outerExtra;
    assert Field(noisy, "updatedNote") == Obj(inner + innerExtra);
    FieldsOfIgnoresOtherKeys(inner, innerExtra);
    assert PatchFields(noisy) == PatchFields(plain);
  }

  /** Every route keeps ids unique, positive and below the id sequence. */
  lemma RouteKeepsValid(t: Table, req: NoteRequest, id: int, xss: JsValue -> string)
    requires TableValid(t) && RouteReady(t, req, id)
    ensures TableValid(NoteRouteOutcome(t, req, id, xss).1)
  {
    RemoveKeepsValid(t, id);
    if req.Patch? && HasId(t.rows, id) {
      UpdateKeepsValid(t, id, PatchFields(req.body));
    }
  }

  lemma PostKeepsValid(t: Table, body: map<string, JsValue>, url: string, now: JsValue, xss: JsValue -> string)
    requires TableValid(t)
    ensures TableValid(PostOutcome(t, body, url, now, xss).1)
  {
    InsertKeepsValid(t, FieldsOf(Obj(body)), now);
  }
}
