/** The `clients` table of server.js:19-27: a surrogate integer key handed out
    by AUTOINCREMENT, a business key `clientId` that must be present and
    unique, a required name and e-mail, an optional phone, and two timestamps
    set from the clock.

    It is held in memory as the sequence of its rows in id order, together with the
    largest id ever handed out (SQLite keeps that number for an AUTOINCREMENT
    table, so ids of deleted rows are never reused). Each method is one SQL
    statement of the service; `CURRENT_TIMESTAMP` is the caller's `now`. */
module Clients {
  import opened Wrappers

  /** One row. Only `phone` may be NULL, so it alone is optional. */
  datatype Client = Client(
    id: int,
    clientId: string,
    name: string,
    email: string,
    phone: Option<string>,
    createdAt: int,
    updatedAt: int)

  /** Why the store refuses a write: a NOT NULL column left NULL, or a second
      row with the same `clientId`. The column is named as SQLite names it. */
  datatype StoreError = NotNullViolation(column: string) | UniqueViolation(column: string)

  // ---------------------------------------------------------------------------
  // The table's invariant

  predicate IdsAscending(rows: seq<Client>)
  {
    forall i, j | 0 <= i < j < |rows| :: rows[i].id < rows[j].id
  }

  predicate ClientIdsDistinct(rows: seq<Client>)
  {
    forall i, j | 0 <= i < j < |rows| :: rows[i].clientId != rows[j].clientId
  }

  /** Every id was handed out by the AUTOINCREMENT counter. */
  predicate IdsIssued(rows: seq<Client>, lastId: int)
  {
    forall i | 0 <= i < |rows| :: 0 < rows[i].id <= lastId
  }

  predicate TableInvariant(rows: seq<Client>, lastId: int)
  {
    0 <= lastId && IdsAscending(rows) && ClientIdsDistinct(rows) && IdsIssued(rows, lastId)
  }

  // ---------------------------------------------------------------------------
  // Row lookup: `WHERE id = ?` and `WHERE clientId = ?`

  function FindById(rows: seq<Client>, id: int): (r: Option<nat>)
    ensures r.Some? ==> r.value < |rows| && rows[r.value].id == id
    ensures r.None? ==> forall k | 0 <= k < |rows| :: rows[k].id != id
  {
    if rows == [] then None
    else if rows[0].id == id then Some(0)
    else match FindById(rows[1..], id)
      case None => None
      case Some(k) => Some(k + 1)
  }

  function FindByClientId(rows: seq<Client>, key: string): (r: Option<nat>)
    ensures r.Some? ==> r.value < |rows| && rows[r.value].clientId == key
    ensures r.None? ==> forall k | 0 <= k < |rows| :: rows[k].clientId != key
  {
    if rows == [] then None
    else if rows[0].clientId == key then Some(0)
    else match FindByClientId(rows[1..], key)
      case None => None
      case Some(k) => Some(k + 1)
  }

  // ---------------------------------------------------------------------------
  // What a write does to the rows

  /** The checks SQLite makes before writing a row with these values: the NOT
      NULL columns in declaration order, then UNIQUE(clientId) against every
      row other than `self` (the row being updated; -1 for an insert). */
  function CheckConstraints(rows: seq<Client>, self: int, clientId: Option<string>,
                            name: Option<string>, email: Option<string>): (r: Option<StoreError>)
    requires ClientIdsDistinct(rows)
    ensures r.None? <==>
      && clientId.Some? && name.Some? && email.Some?
      && forall k | 0 <= k < |rows| && k != self :: rows[k].clientId != clientId.value
    ensures r.Some? ==> (r.value.NotNullViolation? <==> clientId.None? || name.None? || email.None?)
  {
    if clientId.None? then Some(NotNullViolation("clients.clientId"))
    else if name.None? then Some(NotNullViolation("clients.name"))
    else if email.None? then Some(NotNullViolation("clients.email"))
    else match FindByClientId(rows, clientId.value)
      case Some(k) => if k != self then Some(UniqueViolation("clients.clientId")) else None
      case None => None
  }

  /** Row `c` after `SET clientId = ?, name = ?, email = ?, phone = ?,
      updated_at = CURRENT_TIMESTAMP`: its id and created_at stay. */
  function Revised(c: Client, clientId: string, name: string, email: string,
                   phone: Option<string>, now: int): (r: Client)
    ensures r.id == c.id && r.createdAt == c.createdAt && r.updatedAt == now
    ensures r.clientId == clientId && r.name == name && r.email == email && r.phone == phone
  {
    c.(clientId := clientId, name := name, email := email, phone := phone, updatedAt := now)
  }

  /** `rows` without its `k`-th row. */
  function Without(rows: seq<Client>, k: nat): (r: seq<Client>)
    requires k < |rows|
    ensures |r| == |rows| - 1
    ensures forall j | 0 <= j < |r| :: r[j] == if j < k then rows[j] else rows[j + 1]
  {
    rows[..k] + rows[k + 1..]
  }

  /** What an UPDATE that matched row `k` leaves behind and reports: the
      constraint failure and the rows unchanged, or one changed row. */
  ghost predicate UpdateOutcome(before: seq<Client>, after: seq<Client>, k: nat,
                                clientId: Option<string>, name: Option<string>,
                                email: Option<string>, phone: Option<string>, now: int,
                                res: Result<nat, StoreError>)
    requires k < |before| && ClientIdsDistinct(before)
  {
    var check := CheckConstraints(before, k, clientId, name, email);
    if check.Some? then
      res == Failure(check.value) && after == before
    else
      res == Success(1) &&
      after == before[k := Revised(before[k], clientId.value, name.value, email.value, phone, now)]
  }

  // ---------------------------------------------------------------------------
  // Writes keep the invariant

  lemma AppendKeepsInvariant(rows: seq<Client>, lastId: int, c: Client)
    requires TableInvariant(rows, lastId)
    requires c.id == lastId + 1
    requires forall k | 0 <= k < |rows| :: rows[k].clientId != c.clientId
    ensures TableInvariant(rows + [c], lastId + 1)
  {
    var r := rows + [c];
    assert forall k | 0 <= k < |rows| :: r[k] == rows[k];
  }

  lemma ReviseKeepsInvariant(rows: seq<Client>, lastId: int, k: nat, c: Client)
    requires TableInvariant(rows, lastId) && k < |rows|
    requires c.id == rows[k].id
    requires forall j | 0 <= j < |rows| && j != k :: rows[j].clientId != c.clientId
    ensures TableInvariant(rows[k := c], lastId)
  {
  }

  lemma {:induction false} RemoveKeepsInvariant(rows: seq<Client>, lastId: int, k: nat)
    requires TableInvariant(rows, lastId) && k < |rows|
    ensures TableInvariant(Without(rows, k), lastId)
  {
    var r := Without(rows, k);
    forall i, j | 0 <= i < j < |r| ensures r[i].id < r[j].id && r[i].clientId != r[j].clientId {
      var i', j' := if i < k then i else i + 1, if j < k then j else j + 1;
      assert r[i] == rows[i'] && r[j] == rows[j'];
    }
  }

  /** Once row `k` is deleted, no row has its id or its clientId any more, so
      deleting by the same key again finds nothing. */
  lemma {:induction false} DeletedRowIsGone(rows: seq<Client>, lastId: int, k: nat)
    requires TableInvariant(rows, lastId) && k < |rows|
    ensures FindById(Without(rows, k), rows[k].id).None?
    ensures FindByClientId(Without(rows, k), rows[k].clientId).None?
  {
    var r := Without(rows, k);
    forall j | 0 <= j < |r| ensures r[j].id != rows[k].id && r[j].clientId != rows[k].clientId {
      if j < k { assert r[j] == rows[j]; } else { assert r[j] == rows[j + 1]; }
    }
  }

  /** Ids and clientIds each pick out at most one row. */
  lemma RowsAreKeyed(rows: seq<Client>, lastId: int, c: Client, k: nat)
    requires TableInvariant(rows, lastId) && k < |rows| && c in rows
    ensures c.id == rows[k].id ==> c == rows[k]
    ensures c.clientId == rows[k].clientId ==> c == rows[k]
  {
    var j :| 0 <= j < |rows| && rows[j] == c;
    assert c.id == rows[k].id || c.clientId == rows[k].clientId ==> j == k;
  }

  /** A row just inserted is the one `WHERE clientId = ?` finds. */
  lemma {:induction false} InsertedRowIsFound(rows: seq<Client>, lastId: int, c: Client)
    requires TableInvariant(rows, lastId)
    requires c.id == lastId + 1
    requires forall k | 0 <= k < |rows| :: rows[k].clientId != c.clientId
    ensures FindByClientId(rows + [c], c.clientId) == Some(|rows|)
    ensures FindById(rows + [c], c.id) == Some(|rows|)
  {
    var r := rows + [c];
    assert forall k | 0 <= k < |rows| :: r[k] == rows[k];
    assert r[|rows|] == c;
    var f, g := FindByClientId(r, c.clientId), FindById(r, c.id);
    assert f.Some? && g.Some?;
    assert f.value == |rows| && g.value == |rows|;
  }

  // ---------------------------------------------------------------------------
  // ORDER BY name

  /** SQLite's default BINARY collation on text: code-point order, character
      by character, a proper prefix first. */
  predicate NameLe(a: string, b: string)
  {
    a == [] || (b != [] && (a[0] < b[0] || (a[0] == b[0] && NameLe(a[1..], b[1..]))))
  }

  lemma {:induction false} NameLeTotal(a: string, b: string)
    ensures NameLe(a, b) || NameLe(b, a)
  {
    if a != [] && b != [] && a[0] == b[0] {
      NameLeTotal(a[1..], b[1..]);
    }
  }

  lemma {:induction false} NameLeAntisymmetric(a: string, b: string)
    requires NameLe(a, b) && NameLe(b, a)
    ensures a == b
  {
    if a != [] && b != [] {
      NameLeAntisymmetric(a[1..], b[1..]);
      assert a == [a[0]] + a[1..] && b == [b[0]] + b[1..];
    }
  }

  lemma {:induction false} NameLeTransitive(a: string, b: string, c: string)
    requires NameLe(a, b) && NameLe(b, c)
    ensures NameLe(a, c)
  {
    if a != [] && b != [] && c != [] && a[0] == b[0] && b[0] == c[0] {
      NameLeTransitive(a[1..], b[1..], c[1..]);
    }
  }

  predicate SortedByName(rows: seq<Client>)
  {
    forall i, j | 0 <= i < j < |rows| :: NameLe(rows[i].name, rows[j].name)
  }

  /** A row no greater than every row of a sorted list may lead it. */
  lemma LeadKeepsSorted(c: Client, rest: seq<Client>)
    requires SortedByName(rest)
    requires forall j | 0 <= j < |rest| :: NameLe(c.name, rest[j].name)
    ensures SortedByName([c] + rest)
  {
    var r := [c] + rest;
    forall i, j | 0 <= i < j < |r| ensures NameLe(r[i].name, r[j].name) {
      assert r[j] == rest[j - 1];
      if i > 0 { assert r[i] == rest[i - 1]; }
    }
  }

  /** A lower bound on the names of a list bounds every permutation of it. */
  lemma BoundOfPermutation(h: string, a: seq<Client>, b: seq<Client>)
    requires multiset(a) == multiset(b)
    requires forall j | 0 <= j < |b| :: NameLe(h, b[j].name)
    ensures forall j | 0 <= j < |a| :: NameLe(h, a[j].name)
  {
    forall j | 0 <= j < |a| ensures NameLe(h, a[j].name) {
      assert a[j] in multiset(b);
      var i :| 0 <= i < |b| && b[i] == a[j];
    }
  }

  /** `c` placed into `sorted` before the first row whose name is not smaller. */
  function InsertByName(c: Client, sorted: seq<Client>): (r: seq<Client>)
    requires SortedByName(sorted)
    ensures SortedByName(r)
    ensures multiset(r) == multiset(sorted) + multiset{c}
  {
    if sorted == [] then [c]
    else if NameLe(c.name, sorted[0].name) then
      assert forall j | 0 <= j < |sorted| :: NameLe(c.name, sorted[j].name) by {
        forall j | 0 <= j < |sorted| ensures NameLe(c.name, sorted[j].name) {
          if j > 0 { NameLeTransitive(c.name, sorted[0].name, sorted[j].name); }
        }
      }
      LeadKeepsSorted(c, sorted);
      [c] + sorted
    else
      var h, tail := sorted[0], sorted[1..];
      NameLeTotal(c.name, h.name);
      assert sorted == [h] + tail;
      var rest := InsertByName(c, tail);
      var b := tail + [c];
      assert forall j | 0 <= j < |b| :: NameLe(h.name, b[j].name) by {
        forall j | 0 <= j < |b| ensures NameLe(h.name, b[j].name) {
          if j < |tail| { assert b[j] == sorted[j + 1]; }
        }
      }
      BoundOfPermutation(h.name, rest, b);
      LeadKeepsSorted(h, rest);
      [h] + rest
  }

  /** The rows as `SELECT * FROM clients ORDER BY name` returns them: a
      permutation sorted by name. Rows with equal names keep their id order,
      one of the orders SQLite may choose. */
  function SortByName(rows: seq<Client>): (r: seq<Client>)
    ensures SortedByName(r)
    ensures multiset(r) == multiset(rows)
  {
    if rows == [] then []
    else
      assert rows == [rows[0]] + rows[1..];
      InsertByName(rows[0], SortByName(rows[1..]))
  }

  // ---------------------------------------------------------------------------
  // The rows written on first start

  datatype Seed = Seed(clientId: string, name: string, email: string, phone: string)

  const DefaultClients: seq<Seed> := [
    Seed("TB-001", "John Smith", "john.smith@email.com", "+44 7700 123456"),
    Seed("TB-002", "Sarah Johnson", "sarah.johnson@email.com", "+44 7700 789123"),
    Seed("TB-003", "Mike Wilson", "mike.wilson@email.com", "+44 7700 456789")
  ]

  /** The three rows the seeding writes into an empty table whose counter is at `base`. */
  function SeedRows(base: int, now: int): (r: seq<Client>)
    ensures |r| == 3
    ensures r[0].clientId == "TB-001" && r[1].clientId == "TB-002" && r[2].clientId == "TB-003"
    ensures forall i | 0 <= i < 3 :: r[i].id == base + i + 1
  {
    seq(3, i requires 0 <= i < 3 => Client(base + i + 1, DefaultClients[i].clientId, DefaultClients[i].name,
                                       DefaultClients[i].email, Some(DefaultClients[i].phone), now, now))
  }

  // ---------------------------------------------------------------------------
  // The table itself

  class ClientTable {
    var rows: seq<Client>
    /** The AUTOINCREMENT counter: the largest id handed out so far. */
    var lastId: int

    ghost predicate Valid()
      reads this
    {
      TableInvariant(rows, lastId)
    }

    /** `CREATE TABLE IF NOT EXISTS clients (...)` on a fresh database. */
    constructor ()
      ensures Valid() && rows == [] && lastId == 0
    {
      rows := [];
      lastId := 0;
    }

    /** `SELECT * FROM clients WHERE id = ?` */
    method SelectById(id: int) returns (row: Option<Client>)
      requires Valid()
      ensures row.Some? ==> row.value in rows && row.value.id == id
      ensures row.None? ==> forall k | 0 <= k < |rows| :: rows[k].id != id
    {
      match FindById(rows, id)
      case None => row := None;
      case Some(k) => row := Some(rows[k]);
    }

    /** `SELECT * FROM clients WHERE clientId = ?` */
    method SelectByClientId(key: string) returns (row: Option<Client>)
      requires Valid()
      ensures row.Some? ==> row.value in rows && row.value.clientId == key
      ensures row.None? ==> forall k | 0 <= k < |rows| :: rows[k].clientId != key
    {
      match FindByClientId(rows, key)
      case None => row := None;
      case Some(k) => row := Some(rows[k]);
    }

    /** `SELECT * FROM clients ORDER BY name` */
    method SelectAllOrderByName() returns (list: seq<Client>)
      requires Valid()
      ensures multiset(list) == multiset(rows)
      ensures SortedByName(list)
      ensures list == SortByName(rows)
    {
      list := SortByName(rows);
    }

    /** `INSERT INTO clients (clientId, name, email, phone) VALUES (?, ?, ?, ?)`:
        a refused insert changes nothing; otherwise one row is appended, with
        an id above every id handed out before. */
    method Insert(clientId: Option<string>, name: Option<string>, email: Option<string>,
                  phone: Option<string>, now: int) returns (res: Result<Client, StoreError>)
      requires Valid()
      modifies this
      ensures Valid()
      ensures var check := CheckConstraints(old(rows), -1, clientId, name, email);
        if check.Some? then
          res == Failure(check.value) && rows == old(rows) && lastId == old(lastId)
        else
          && res == Success(Client(old(lastId) + 1, clientId.value, name.value, email.value, phone, now, now))
          && rows == old(rows) + [res.value]
          && lastId == old(lastId) + 1
      ensures res.Success? ==> forall k | 0 <= k < |old(rows)| :: old(rows)[k].id < res.value.id
    {
      var check := CheckConstraints(rows, -1, clientId, name, email);
      if check.Some? {
        return Failure(check.value);
      }
      var row := Client(lastId + 1, clientId.value, name.value, email.value, phone, now, now);
      AppendKeepsInvariant(rows, lastId, row);
      rows := rows + [row];
      lastId := lastId + 1;
      res := Success(row);
    }

    /** The write of an UPDATE whose WHERE clause matched row `k`. */
    method UpdateRow(k: nat, clientId: Option<string>, name: Option<string>, email: Option<string>,
                     phone: Option<string>, now: int) returns (res: Result<nat, StoreError>)
      requires Valid() && k < |rows|
      modifies this
      ensures Valid() && lastId == old(lastId)
      ensures UpdateOutcome(old(rows), rows, k, clientId, name, email, phone, now, res)
    {
      var check := CheckConstraints(rows, k, clientId, name, email);
      if check.Some? {
        return Failure(check.value);
      }
      var row := Revised(rows[k], clientId.value, name.value, email.value, phone, now);
      ReviseKeepsInvariant(rows, lastId, k, row);
      rows := rows[k := row];
      res := Success(1);
    }

    /** `UPDATE clients SET ... WHERE id = ?`: `Success(0)` (no change) when no
        row has that id, otherwise the outcome for the one row that has it. */
    method UpdateWhereId(id: int, clientId: Option<string>, name: Option<string>, email: Option<string>,
                         phone: Option<string>, now: int) returns (res: Result<nat, StoreError>)
      requires Valid()
      modifies this
      ensures Valid() && lastId == old(lastId)
      ensures FindById(old(rows), id).None? ==> res == Success(0) && rows == old(rows)
      ensures FindById(old(rows), id).Some? ==>
        UpdateOutcome(old(rows), rows, FindById(old(rows), id).value, clientId, name, email, phone, now, res)
    {
      match FindById(rows, id)
      case None => res := Success(0);
      case Some(k) => res := UpdateRow(k, clientId, name, email, phone, now);
    }

    /** `UPDATE clients SET ... WHERE clientId = ?` */
    method UpdateWhereClientId(key: string, clientId: Option<string>, name: Option<string>,
                               email: Option<string>, phone: Option<string>, now: int)
      returns (res: Result<nat, StoreError>)
      requires Valid()
      modifies this
      ensures Valid() && lastId == old(lastId)
      ensures FindByClientId(old(rows), key).None? ==> res == Success(0) && rows == old(rows)
      ensures FindByClientId(old(rows), key).Some? ==>
        UpdateOutcome(old(rows), rows, FindByClientId(old(rows), key).value, clientId, name, email, phone, now, res)
    {
      match FindByClientId(rows, key)
      case None => res := Success(0);
      case Some(k) => res := UpdateRow(k, clientId, name, email, phone, now);
    }

    /** `DELETE FROM clients WHERE id = ?`: removes that row and only that row. */
    method DeleteWhereId(id: int) returns (changes: nat)
      requires Valid()
      modifies this
      ensures Valid() && lastId == old(lastId)
      ensures FindById(old(rows), id).None? ==> changes == 0 && rows == old(rows)
      ensures FindById(old(rows), id).Some? ==>
        changes == 1 && rows == Without(old(rows), FindById(old(rows), id).value)
    {
      match FindById(rows, id)
      case None => changes := 0;
      case Some(k) =>
        RemoveKeepsInvariant(rows, lastId, k);
        rows := Without(rows, k);
        changes := 1;
    }

    /** `DELETE FROM clients WHERE clientId = ?` */
    method DeleteWhereClientId(key: string) returns (changes: nat)
      requires Valid()
      modifies this
      ensures Valid() && lastId == old(lastId)
      ensures FindByClientId(old(rows), key).None? ==> changes == 0 && rows == old(rows)
      ensures FindByClientId(old(rows), key).Some? ==>
        changes == 1 && rows == Without(old(rows), FindByClientId(old(rows), key).value)
    {
      match FindByClientId(rows, key)
      case None => changes := 0;
      case Some(k) =>
        RemoveKeepsInvariant(rows, lastId, k);
        rows := Without(rows, k);
        changes := 1;
    }

    /** The start-up block: `SELECT COUNT(*)`, and on an empty table one
        INSERT per default client. A table with rows is left as it is, so
        running it on every start is harmless. */
    method SeedIfEmpty(now: int)
      requires Valid()
      modifies this
      ensures Valid()
      ensures old(rows) == [] ==> rows == SeedRows(old(lastId), now) && lastId == old(lastId) + 3
      ensures old(rows) != [] ==> rows == old(rows) && lastId == old(lastId)
    {
      if |rows| == 0 {
        var i := 0;
        while i < |DefaultClients|
          invariant 0 <= i <= |DefaultClients|
          invariant Valid()
          invariant rows == SeedRows(old(lastId), now)[..i]
          invariant lastId == old(lastId) + i
        {
          var d := DefaultClients[i];
          assert forall k | 0 <= k < |rows| :: rows[k].clientId == DefaultClients[k].clientId;
          var _ := Insert(Some(d.clientId), Some(d.name), Some(d.email), Some(d.phone), now);
          i := i + 1;
        }
      }
    }
  }
}
