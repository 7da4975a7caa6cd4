/** The `/clients` routes: each handler validates its request, issues its SQL
    against the table and turns the outcome into a status and a JSON body.
    Validation failures answer 400 before the table is touched; a missing row
    answers 404; a second row with the same `clientId` answers 409; any other
    refusal by the store answers 500; success answers 201 (create) or 200. */
module Service {
  import opened Wrappers
  import opened Clients
  import opened Email
  import opened IdParam
  import opened FormDirectory

  /** The fields of a JSON request body; `None` is a field that is absent or null. */
  datatype ClientFields = ClientFields(
    clientId: Option<string>,
    name: Option<string>,
    email: Option<string>,
    phone: Option<string>)

  /** The JSON bodies the handlers send. */
  datatype Body =
    | DirectoryBody(clients: map<string, FormEntry>, count: nat)
    | ListBody(rows: seq<Client>, count: nat)
    | ClientBody(client: Client)
    | Created(client: Client)
    | Updated(client: Client)
    | Deleted(deletedClient: Client)
    | ErrorBody(error: string)
    | ConflictBody(error: string, clientId: Option<string>)
    | DatabaseError(error: string, cause: StoreError)

  datatype Response = Response(status: int, body: Body)

  const InvalidIdFormat := "Invalid ID format"
  const ClientNotFound := "Client not found"
  const MissingFields := "Missing required fields: clientId, name, and email are required"
  const InvalidEmailFormat := "Invalid email format"
  const DuplicateClientId := "Client ID already exists"
  const DatabaseErrorMessage := "Database error"

  const NotFound := Response(404, ErrorBody(ClientNotFound))

  // ---------------------------------------------------------------------------
  // JavaScript truthiness of a request field

  /** A string field is truthy when present and not empty. */
  predicate Truthy(v: Option<string>)
  {
    v.Some? && v.value != ""
  }

  /** `a || b`: one of the operands, truthy exactly when either is. */
  function Or(a: Option<string>, b: Option<string>): (r: Option<string>)
    ensures r == a || r == b
    ensures Truthy(r) <==> Truthy(a) || Truthy(b)
  {
    if Truthy(a) then a else b
  }

  /** `clientId && name && email`: the fields a create cannot do without. */
  predicate RequiredFieldsPresent(body: ClientFields)
  {
    Truthy(body.clientId) && Truthy(body.name) && Truthy(body.email)
  }

  /** The update routes check the e-mail only when one is given. */
  predicate EmailAcceptable(email: Option<string>)
  {
    Truthy(email) ==> IsValidEmail(email.value)
  }

  /** A write the store refused: 409 for a duplicate `clientId` (reported back
      as `clientId`), 500 for anything else. */
  function StoreFailure(e: StoreError, clientId: Option<string>): Response
  {
    if e.UniqueViolation? then Response(409, ConflictBody(DuplicateClientId, clientId))
    else Response(500, DatabaseError(DatabaseErrorMessage, e))
  }

  // ---------------------------------------------------------------------------
  // What each kind of route answers, given the row its WHERE clause matched

  /** A lookup: 404 when no row matched, otherwise 200 with that row. */
  ghost predicate LookupAnswered(rows: seq<Client>, found: Option<nat>, resp: Response)
    requires found.Some? ==> found.value < |rows|
  {
    match found
    case None => resp == NotFound
    case Some(k) => resp == Response(200, ClientBody(rows[k]))
  }

  /** An update of the row `found` to `clientId` and the body's other fields:
      404 and no change when no row matched; the store's refusal and no
      change; or 200 with the revised row, which replaces row `k` and nothing
      else. */
  ghost predicate UpdateAnswered(before: seq<Client>, after: seq<Client>, found: Option<nat>,
                                 clientId: Option<string>, body: ClientFields, now: int, resp: Response)
    requires ClientIdsDistinct(before)
    requires found.Some? ==> found.value < |before|
  {
    match found
    case None => resp == NotFound && after == before
    case Some(k) =>
      var check := CheckConstraints(before, k, clientId, body.name, body.email);
      if check.Some? then
        resp == StoreFailure(check.value, clientId) && after == before
      else
        var row := Revised(before[k], clientId.value, body.name.value, body.email.value, body.phone, now);
        resp == Response(200, Updated(row)) && after == before[k := row]
  }

  /** A delete: 404 and no change when no row matched, otherwise 200 with the
      row as it was, and that row alone gone. */
  ghost predicate DeleteAnswered(before: seq<Client>, after: seq<Client>, found: Option<nat>, resp: Response)
    requires found.Some? ==> found.value < |before|
  {
    match found
    case None => resp == NotFound && after == before
    case Some(k) => resp == Response(200, Deleted(before[k])) && after == Without(before, k)
  }

  // ---------------------------------------------------------------------------
  // Reads

  /** `GET /clients`: the directory of the rows in name order, and the number
      of rows, which exceeds the number of entries when names share a key. */
  method GetClients(t: ClientTable) returns (resp: Response)
    requires t.Valid()
    ensures resp.status == 200 && resp.body.DirectoryBody?
    ensures resp.body.clients == Directory(SortByName(t.rows))
    ensures resp.body.clients.Keys == set c | c in t.rows :: DirectoryKey(c.name)
    ensures resp.body.count == |t.rows| && |resp.body.clients| <= resp.body.count
  {
    var rows := t.SelectAllOrderByName();
    var clients := FormatClientsForForm(rows);
    assert |rows| == |multiset(rows)| == |multiset(t.rows)| == |t.rows|;
    DirectoryKeys(rows);
    DirectoryNoLarger(rows);
    assert forall c :: c in rows <==> c in t.rows by {
      forall c ensures c in rows <==> c in t.rows {
        assert c in rows <==> c in multiset(rows);
        assert c in t.rows <==> c in multiset(t.rows);
      }
    }
    assert (set c | c in rows :: DirectoryKey(c.name)) == set c | c in t.rows :: DirectoryKey(c.name);
    resp := Response(200, DirectoryBody(clients, |rows|));
  }

  /** `GET /clients/raw`: every row, sorted by name, and their number. */
  method GetClientsRaw(t: ClientTable) returns (resp: Response)
    requires t.Valid()
    ensures resp.status == 200 && resp.body.ListBody?
    ensures multiset(resp.body.rows) == multiset(t.rows) && SortedByName(resp.body.rows)
    ensures resp.body.count == |t.rows|
  {
    var rows := t.SelectAllOrderByName();
    assert |rows| == |multiset(rows)| == |multiset(t.rows)| == |t.rows|;
    resp := Response(200, ListBody(rows, |rows|));
  }

  /** `GET /clients/:id` */
  method GetClientById(t: ClientTable, idParam: string) returns (resp: Response)
    requires t.Valid()
    ensures ParseInt(idParam).None? ==> resp == Response(400, ErrorBody(InvalidIdFormat))
    ensures ParseInt(idParam).Some? ==> LookupAnswered(t.rows, FindById(t.rows, ParseInt(idParam).value), resp)
  {
    var id := ParseInt(idParam);
    if id.None? {
      return Response(400, ErrorBody(InvalidIdFormat));
    }
    var row := t.SelectById(id.value);
    match row
    case None => resp := NotFound;
    case Some(c) =>
      var k := FindById(t.rows, id.value).value;
      RowsAreKeyed(t.rows, t.lastId, c, k);
      resp := Response(200, ClientBody(c));
  }

  /** `GET /clients/clientId/:clientId` */
  method GetClientByClientId(t: ClientTable, key: string) returns (resp: Response)
    requires t.Valid()
    ensures LookupAnswered(t.rows, FindByClientId(t.rows, key), resp)
  {
    var row := t.SelectByClientId(key);
    match row
    case None => resp := NotFound;
    case Some(c) =>
      var k := FindByClientId(t.rows, key).value;
      RowsAreKeyed(t.rows, t.lastId, c, k);
      resp := Response(200, ClientBody(c));
  }

  // ---------------------------------------------------------------------------
  // Writes

  /** `POST /clients`: 400 for a missing field or a malformed e-mail before
      the table is touched; 409 when the `clientId` is taken; otherwise 201
      with the new row, whose id is above every id handed out before and
      whose falsy phone is stored as NULL. */
  method CreateClient(t: ClientTable, body: ClientFields, now: int) returns (resp: Response)
    requires t.Valid()
    modifies t
    ensures t.Valid()
    ensures resp.status != 201 ==> t.rows == old(t.rows) && t.lastId == old(t.lastId)
    ensures !RequiredFieldsPresent(body) ==> resp == Response(400, ErrorBody(MissingFields))
    ensures RequiredFieldsPresent(body) && !IsValidEmail(body.email.value) ==>
      resp == Response(400, ErrorBody(InvalidEmailFormat))
    ensures RequiredFieldsPresent(body) && IsValidEmail(body.email.value) ==>
      if FindByClientId(old(t.rows), body.clientId.value).Some? then
        resp == Response(409, ConflictBody(DuplicateClientId, body.clientId))
      else
        var row := Client(old(t.lastId) + 1, body.clientId.value, body.name.value, body.email.value,
                          Or(body.phone, None), now, now);
        && resp == Response(201, Created(row))
        && t.rows == old(t.rows) + [row]
        && t.lastId == old(t.lastId) + 1
    ensures resp.status == 201 ==>
      resp.body.Created? && forall k | 0 <= k < |old(t.rows)| :: old(t.rows)[k].id < resp.body.client.id
  {
    if !RequiredFieldsPresent(body) {
      return Response(400, ErrorBody(MissingFields));
    }
    if !IsValidEmail(body.email.value) {
      return Response(400, ErrorBody(InvalidEmailFormat));
    }
    var res := t.Insert(body.clientId, body.name, body.email, Or(body.phone, None), now);
    if res.Failure? {
      return StoreFailure(res.error, body.clientId);
    }
    // The new row is read back by the id the insert handed out.
    ghost var k := |t.rows| - 1;
    assert t.rows[k] == res.value && res.value.id == t.lastId;
    var row := t.SelectById(t.lastId);
    assert row.Some?;
    RowsAreKeyed(t.rows, t.lastId, row.value, k);
    resp := Response(201, Created(row.value));
  }

  /** `PUT /clients/:id`: 400 for an id that is not a number or a malformed
      e-mail; otherwise the update of the row with that id. Missing fields are
      written as NULL, which the store refuses for the NOT NULL columns. */
  method UpdateClientById(t: ClientTable, idParam: string, body: ClientFields, now: int)
    returns (resp: Response)
    requires t.Valid()
    modifies t
    ensures t.Valid() && t.lastId == old(t.lastId)
    ensures resp.status != 200 ==> t.rows == old(t.rows)
    ensures ParseInt(idParam).None? ==> resp == Response(400, ErrorBody(InvalidIdFormat))
    ensures ParseInt(idParam).Some? && !EmailAcceptable(body.email) ==>
      resp == Response(400, ErrorBody(InvalidEmailFormat))
    ensures ParseInt(idParam).Some? && EmailAcceptable(body.email) ==>
      UpdateAnswered(old(t.rows), t.rows, FindById(old(t.rows), ParseInt(idParam).value),
                     body.clientId, body, now, resp)
  {
    var id := ParseInt(idParam);
    if id.None? {
      return Response(400, ErrorBody(InvalidIdFormat));
    }
    if Truthy(body.email) && !IsValidEmail(body.email.value) {
      return Response(400, ErrorBody(InvalidEmailFormat));
    }
    resp := UpdateWhereIdAnswer(t, id.value, body, now);
  }

  /** The part of `PUT /clients/:id` after validation: the UPDATE, then the
      SELECT of the row it changed. */
  method UpdateWhereIdAnswer(t: ClientTable, id: int, body: ClientFields, now: int)
    returns (resp: Response)
    requires t.Valid()
    modifies t
    ensures t.Valid() && t.lastId == old(t.lastId)
    ensures resp.status != 200 ==> t.rows == old(t.rows)
    ensures UpdateAnswered(old(t.rows), t.rows, FindById(old(t.rows), id), body.clientId, body, now, resp)
  {
    var res := t.UpdateWhereId(id, body.clientId, body.name, body.email, body.phone, now);
    if res.Failure? {
      return StoreFailure(res.error, body.clientId);
    }
    if res.value == 0 {
      return NotFound;
    }
    // The changed row is read back by its id for the answer.
    ghost var k := FindById(old(t.rows), id).value;
    assert t.rows[k] == Revised(old(t.rows)[k], body.clientId.value, body.name.value, body.email.value, body.phone, now);
    var row := t.SelectById(id);
    assert row.Some?;
    RowsAreKeyed(t.rows, t.lastId, row.value, k);
    resp := Response(200, Updated(row.value));
  }

  /** `PUT /clients/clientId/:clientId`: 400 for a malformed e-mail; otherwise
      the update of the row with that `clientId`, which keeps its `clientId`
      unless the body gives a new one. */
  method UpdateClientByClientId(t: ClientTable, currentClientId: string, body: ClientFields, now: int)
    returns (resp: Response)
    requires t.Valid()
    modifies t
    ensures t.Valid() && t.lastId == old(t.lastId)
    ensures resp.status != 200 ==> t.rows == old(t.rows)
    ensures !EmailAcceptable(body.email) ==> resp == Response(400, ErrorBody(InvalidEmailFormat))
    ensures EmailAcceptable(body.email) ==>
      UpdateAnswered(old(t.rows), t.rows, FindByClientId(old(t.rows), currentClientId),
                     Or(body.clientId, Some(currentClientId)), body, now, resp)
  {
    if Truthy(body.email) && !IsValidEmail(body.email.value) {
      return Response(400, ErrorBody(InvalidEmailFormat));
    }
    var clientId := Or(body.clientId, Some(currentClientId));
    var res := t.UpdateWhereClientId(currentClientId, clientId, body.name, body.email, body.phone, now);
    if res.Failure? {
      return StoreFailure(res.error, clientId);
    }
    if res.value == 0 {
      return NotFound;
    }
    // The changed row is read back under the clientId it now has.
    ghost var k := FindByClientId(old(t.rows), currentClientId).value;
    assert t.rows[k] == Revised(old(t.rows)[k], clientId.value, body.name.value, body.email.value, body.phone, now);
    var row := t.SelectByClientId(clientId.value);
    assert row.Some?;
    RowsAreKeyed(t.rows, t.lastId, row.value, k);
    resp := Response(200, Updated(row.value));
  }

  /** `DELETE /clients/:id`: 400 for an id that is not a number; otherwise
      the row is read, then deleted. */
  method DeleteClientById(t: ClientTable, idParam: string) returns (resp: Response)
    requires t.Valid()
    modifies t
    ensures t.Valid() && t.lastId == old(t.lastId)
    ensures ParseInt(idParam).None? ==> resp == Response(400, ErrorBody(InvalidIdFormat)) && t.rows == old(t.rows)
    ensures ParseInt(idParam).Some? ==>
      DeleteAnswered(old(t.rows), t.rows, FindById(old(t.rows), ParseInt(idParam).value), resp)
  {
    var id := ParseInt(idParam);
    if id.None? {
      return Response(400, ErrorBody(InvalidIdFormat));
    }
    // The row is read before it goes, so the answer can carry it.
    var row := t.SelectById(id.value);
    if row.None? {
      return NotFound;
    }
    RowsAreKeyed(t.rows, t.lastId, row.value, FindById(t.rows, id.value).value);
    var _ := t.DeleteWhereId(id.value);
    resp := Response(200, Deleted(row.value));
  }

  /** `DELETE /clients/clientId/:clientId` */
  method DeleteClientByClientId(t: ClientTable, key: string) returns (resp: Response)
    requires t.Valid()
    modifies t
    ensures t.Valid() && t.lastId == old(t.lastId)
    ensures DeleteAnswered(old(t.rows), t.rows, FindByClientId(old(t.rows), key), resp)
  {
    // The row is read before it goes, so the answer can carry it.
    var row := t.SelectByClientId(key);
    if row.None? {
      return NotFound;
    }
    RowsAreKeyed(t.rows, t.lastId, row.value, FindByClientId(t.rows, key).value);
    var _ := t.DeleteWhereClientId(key);
    resp := Response(200, Deleted(row.value));
  }

  // ---------------------------------------------------------------------------
  // Create and update check different things

  /** An update that keeps the row's `clientId` and gives an empty name goes
      through the store, while a create with the same fields is refused with
      400: the update routes require only that the NOT NULL columns be given. */
  lemma UpdateStoresEmptyName(before: seq<Client>, lastId: int, k: nat, body: ClientFields)
    requires TableInvariant(before, lastId) && k < |before|
    requires body.clientId == Some(before[k].clientId) && body.name == Some("") && body.email.Some?
    ensures CheckConstraints(before, k, body.clientId, body.name, body.email).None?
    ensures !RequiredFieldsPresent(body)
  {
    forall j | 0 <= j < |before| && j != k ensures before[j].clientId != before[k].clientId {
      if j < k { assert before[j].clientId != before[k].clientId; }
    }
  }
}
