/** The collection endpoint (api/interns/index.ts): `GET` seeds an empty table and
    lists every record by id; any other method needs the admin session; `POST`
    inserts one record under the next free id; the rest answer 405. The table is a
    `Db.Table`; the next id (`getNextId()`) is the parameter `nextId`, the date
    column's verdict `dateOk`, and the driver's date read-back `isoDay`. */
module InternsIndex {
  import opened Types
  import opened Http
  import opened Server
  import opened Db
  import opened Auth

  const MissingFields := "Missing required fields"
  const MethodNotAllowed := "Method not allowed"

  /** `(req.body || {})` read as the create payload: a body without these fields
      leaves them all undefined. */
  function Fields(body: Body): (x: Incoming)
    ensures body.RecordBody? ==> x == body.record
    ensures body.NoBody? || body.BulkBody? ==> x == NoFields
  {
    match body
    case RecordBody(r) => r
    case InternBody(i) =>
      Incoming(Some(i.id), Some(i.name), Some(i.role), Some(i.email), Some(i.phone), Some(i.imageUrl),
               Some(i.projects), Some(i.manager), Some(i.startDate), Some(i.performance), Some(i.skills),
               Some(i.department))
    case _ => NoFields
  }

  /** The row an `INSERT` of the record under `id` stores: a missing text becomes
      `''`, a missing list `{}`, an empty date NULL; `image_url` is not inserted. */
  function InsertedRow(id: string, x: Incoming): (row: DbRow)
    ensures row.id == id && row.imageUrl == None
    ensures row.startDate == NullIfEmpty(OrElse(x.startDate, ""))
  {
    DbRow(id, OrElse(x.name, ""), OrElse(x.role, ""), OrElse(x.email, ""), Some(OrElse(x.phone, "")), None,
          Some(OrElse(x.projects, [])), Some(OrElse(x.manager, "")), NullIfEmpty(OrElse(x.startDate, "")),
          Some(OrElse(x.performance, "")), Some(OrElse(x.skills, [])), Some(OrElse(x.department, "")))
  }

  /** The record with every missing field at its default and no image. */
  function Filled(id: string, x: Incoming): Intern {
    Intern(id, OrElse(x.name, ""), OrElse(x.role, ""), OrElse(x.email, ""), OrElse(x.phone, ""), "",
           OrElse(x.projects, []), OrElse(x.manager, ""), OrElse(x.startDate, ""),
           OrElse(x.performance, ""), OrElse(x.skills, []), OrElse(x.department, ""))
  }

  /** What `RETURNING *` reads back is the payload with its defaults, provided the
      date comes back as it was sent. */
  lemma InsertedReadBack(id: string, x: Incoming, isoDay: string -> string)
    requires CanonicalDate(OrElse(x.startDate, ""), isoDay)
    ensures ToIntern(InsertedRow(id, x), isoDay) == Filled(id, x)
  {
  }

  /** The `GET` branch: seed an empty table, then list it. A failed seed insert is
      answered 500 with the driver's message, and the rows inserted before it stay. */
  method ServeList(res: Response, table: Table, seed: seq<Intern>, isoDay: string -> string,
                   dateOk: string -> bool, dbError: string)
    requires KeyedById(table.rows)
    modifies res`status, res`json, table`rows
    ensures KeyedById(table.rows)
    ensures |old(table.rows)| != 0 ==> table.rows == old(table.rows)
    ensures |old(table.rows)| == 0 && DistinctIds(seed) && DatesAccepted(seed, dateOk) ==>
      table.rows == SeedTable(seed)
    ensures res.status == 200 <==> |old(table.rows)| != 0 || (DistinctIds(seed) && DatesAccepted(seed, dateOk))
    ensures res.status == 200 ==> res.json == InternsJson(ListById(table.rows, isoDay))
    ensures res.status != 200 ==> res.status == 500 && res.json == ErrorJson(dbError)
    ensures |old(table.rows)| == 0 && res.status != 200 ==>
      exists k :: 0 <= k < |seed| && table.rows == SeedTable(seed[..k])
  {
    var ok := table.SeedIfEmpty(seed, dateOk);
    if ok {
      res.Send(200, InternsJson(ListById(table.rows, isoDay)));
    } else {
      res.Send(500, ErrorJson(dbError));
    }
  }

  /** The `POST` branch once the session holds. The insert fails on an id already
      present or a date the column refuses. */
  method CreateIntern(body: Body, res: Response, table: Table, isoDay: string -> string,
                      dateOk: string -> bool, nextId: map<string, DbRow> -> string, dbError: string)
    requires KeyedById(table.rows)
    modifies res`status, res`json, table`rows
    ensures KeyedById(table.rows)
    ensures var x := Fields(body);
      !(Truthy(x.name) && Truthy(x.role) && Truthy(x.email)) ==>
        res.status == 400 && res.json == ErrorJson(MissingFields) && table.rows == old(table.rows)
    ensures var x := Fields(body); var id := nextId(old(table.rows));
      Truthy(x.name) && Truthy(x.role) && Truthy(x.email) ==>
        if id !in old(table.rows) && DateAccepted(OrElse(x.startDate, ""), dateOk) then
          res.status == 201 && table.rows == old(table.rows)[id := InsertedRow(id, x)]
          && res.json == InternJson(ToIntern(InsertedRow(id, x), isoDay))
        else
          res.status == 500 && res.json == ErrorJson(dbError) && table.rows == old(table.rows)
  {
    var x := Fields(body);
    if !Truthy(x.name) || !Truthy(x.role) || !Truthy(x.email) {
      res.Send(400, ErrorJson(MissingFields));
      return;
    }
    var id := nextId(table.rows);
    if id in table.rows || !DateAccepted(OrElse(x.startDate, ""), dateOk) {
      res.Send(500, ErrorJson(dbError));
      return;
    }
    var row := InsertedRow(id, x);
    table.rows := table.rows[id := row];
    res.Send(201, InternJson(ToIntern(row, isoDay)));
  }

  /** The handler. Listing needs no session; everything else is refused 401 without
      one, and a missing secret is answered 500 with its message. */
  method Handle(req: ApiRequest, res: Response, table: Table, env: Env, nowMs: int, c: Crypto,
                seed: seq<Intern>, isoDay: string -> string, dateOk: string -> bool,
                nextId: map<string, DbRow> -> string, dbError: string)
    requires KeyedById(table.rows)
    modifies res`status, res`json, table`rows
    ensures KeyedById(table.rows)
    ensures req.verb == Get ==>
      (res.status == 200 ==> res.json == InternsJson(ListById(table.rows, isoDay)))
      && (|old(table.rows)| != 0 ==> res.status == 200 && table.rows == old(table.rows))
      && (res.status == 200 <==> |old(table.rows)| != 0 || (DistinctIds(seed) && DatesAccepted(seed, dateOk)))
      && (res.status != 200 ==> res.status == 500 && res.json == ErrorJson(dbError))
      && (|old(table.rows)| == 0 && DistinctIds(seed) && DatesAccepted(seed, dateOk) ==>
            table.rows == SeedTable(seed))
      && (|old(table.rows)| == 0 && res.status != 200 ==>
            exists k :: 0 <= k < |seed| && table.rows == SeedTable(seed[..k]))
    ensures req.verb != Get ==>
      var session := VerifySessionToken(SessionToken(req.cookies), env, nowMs, c);
      (session == Value(None) ==>
        res.status == 401 && res.json == ErrorJson(Unauthorized) && table.rows == old(table.rows))
      && (session.Thrown? ==>
        res.status == 500 && res.json == ErrorJson(session.message) && table.rows == old(table.rows))
      && (session.Value? && session.value.Some? && req.verb != Post ==>
        res.status == 405 && res.json == ErrorJson(MethodNotAllowed) && table.rows == old(table.rows))
    ensures var session := VerifySessionToken(SessionToken(req.cookies), env, nowMs, c);
      var x := Fields(req.body); var id := nextId(old(table.rows));
      req.verb == Post && session.Value? && session.value.Some? ==>
        if !(Truthy(x.name) && Truthy(x.role) && Truthy(x.email)) then
          res.status == 400 && res.json == ErrorJson(MissingFields) && table.rows == old(table.rows)
        else if id !in old(table.rows) && DateAccepted(OrElse(x.startDate, ""), dateOk) then
          res.status == 201 && table.rows == old(table.rows)[id := InsertedRow(id, x)]
          && res.json == InternJson(ToIntern(InsertedRow(id, x), isoDay))
        else
          res.status == 500 && res.json == ErrorJson(dbError) && table.rows == old(table.rows)
    ensures res.status == 201 ==>
      req.verb == Post && Truthy(Fields(req.body).name)
      && table.rows == old(table.rows)[nextId(old(table.rows)) := InsertedRow(nextId(old(table.rows)), Fields(req.body))]
    ensures table.rows != old(table.rows) ==> req.verb == Get || res.status == 201
  {
    if req.verb == Get {
      ServeList(res, table, seed, isoDay, dateOk, dbError);
      return;
    }
    var session := RequireAdminSession(req, res, env, nowMs, c);
    if session.Thrown? {
      res.Send(500, ErrorJson(session.message));
      return;
    }
    if session.value.None? {
      return;
    }
    if req.verb == Post {
      CreateIntern(req.body, res, table, isoDay, dateOk, nextId, dbError);
      return;
    }
    res.Send(405, ErrorJson(MethodNotAllowed));
  }

  /** With a fresh next id and an accepted date, a create adds exactly one row. */
  lemma CreateAddsOneRow(rows: map<string, DbRow>, id: string, x: Incoming)
    requires id !in rows
    ensures |rows[id := InsertedRow(id, x)]| == |rows| + 1
    ensures KeyedById(rows) ==> KeyedById(rows[id := InsertedRow(id, x)])
  {
  }
}
