/** The bulk import endpoint (api/interns/bulk.ts): behind the admin session, a
    `POST` of `{ interns: [...] }` upserts each record in order, a record without an
    id taking the next free one, and answers with the saved records. An upsert
    replaces every column of an existing row except `image_url`. Nothing catches a
    failing insert: the error leaves the handler with the rows before it saved. */
module InternsBulk {
  import opened Types
  import opened Http
  import opened Server
  import opened Db
  import opened Auth
  import opened InternsIndex

  const NoInterns := "No interns provided"

  /** `image_url` of the row stored under `id`, NULL when there is none. */
  function ImageIn(rows: map<string, DbRow>, id: string): (img: Option<string>)
    ensures id !in rows ==> img == None
  {
    if id in rows then rows[id].imageUrl else None
  }

  /** The row an upsert of the record under `id` leaves: the inserted row, keeping
      the image of the row it replaces. */
  function Stored(rows: map<string, DbRow>, id: string, x: Incoming): (row: DbRow)
    ensures row.id == id && row.imageUrl == ImageIn(rows, id)
    ensures row.(imageUrl := None) == InsertedRow(id, x)
  {
    InsertedRow(id, x).(imageUrl := ImageIn(rows, id))
  }

  /** `intern.id || await getNextId()` */
  function RecordId(x: Incoming, rows: map<string, DbRow>, nextId: map<string, DbRow> -> string): (id: string)
    ensures Truthy(x.id) ==> id == x.id.value
    ensures !Truthy(x.id) ==> id == nextId(rows)
  {
    if Truthy(x.id) then x.id.value else nextId(rows)
  }

  /** The state of a run: the table, the records saved so far, and whether an upsert
      has thrown. */
  datatype Batch = Batch(rows: map<string, DbRow>, saved: seq<Intern>, failed: bool)

  /** One iteration of the loop. */
  function Step(b: Batch, x: Incoming, isoDay: string -> string, dateOk: string -> bool,
                nextId: map<string, DbRow> -> string): (r: Batch)
    ensures b.failed ==> r == b
    ensures !b.failed && !DateAccepted(OrElse(x.startDate, ""), dateOk) ==> r == b.(failed := true)
  {
    if b.failed then b
    else if !DateAccepted(OrElse(x.startDate, ""), dateOk) then b.(failed := true)
    else
      var id := RecordId(x, b.rows, nextId);
      var row := Stored(b.rows, id, x);
      Batch(b.rows[id := row], b.saved + [ToIntern(row, isoDay)], false)
  }

  /** The loop over `records` from the table `rows0`. */
  function Run(rows0: map<string, DbRow>, records: seq<Incoming>, isoDay: string -> string,
               dateOk: string -> bool, nextId: map<string, DbRow> -> string): (b: Batch)
    ensures !b.failed ==> |b.saved| == |records|
    decreases |records|
  {
    if records == [] then Batch(rows0, [], false)
    else Step(Run(rows0, records[..|records| - 1], isoDay, dateOk, nextId), records[|records| - 1], isoDay, dateOk, nextId)
  }

  /** The upsert loop: on success the table and the saved list are those of `Run`; a
      failing upsert stops the loop with the rows before it in place. */
  method UpsertAll(table: Table, records: seq<Incoming>, isoDay: string -> string,
                   dateOk: string -> bool, nextId: map<string, DbRow> -> string)
    returns (saved: seq<Intern>, failed: bool)
    modifies table`rows
    ensures Run(old(table.rows), records, isoDay, dateOk, nextId) == Batch(table.rows, saved, failed)
  {
    ghost var rows0 := table.rows;
    saved := [];
    var i := 0;
    while i < |records|
      invariant 0 <= i <= |records|
      invariant Run(rows0, records[..i], isoDay, dateOk, nextId) == Batch(table.rows, saved, false)
    {
      var x := records[i];
      assert records[..i + 1][..i] == records[..i];
      if !DateAccepted(OrElse(x.startDate, ""), dateOk) {
        RunStopped(rows0, records, i, isoDay, dateOk, nextId);
        return saved, true;
      }
      var id := RecordId(x, table.rows, nextId);
      var row := Stored(table.rows, id, x);
      table.rows := table.rows[id := row];
      saved := saved + [ToIntern(row, isoDay)];
      i := i + 1;
    }
    assert records[..|records|] == records;
    return saved, false;
  }

  /** Once failed, the later records change nothing. */
  lemma {:induction false} RunStopped(rows0: map<string, DbRow>, records: seq<Incoming>, i: int,
                                      isoDay: string -> string, dateOk: string -> bool,
                                      nextId: map<string, DbRow> -> string)
    requires 0 <= i < |records|
    requires !Run(rows0, records[..i], isoDay, dateOk, nextId).failed
    requires !DateAccepted(OrElse(records[i].startDate, ""), dateOk)
    ensures Run(rows0, records, isoDay, dateOk, nextId)
      == Run(rows0, records[..i], isoDay, dateOk, nextId).(failed := true)
    decreases |records|
  {
    if i == |records| - 1 {
      assert records[..|records| - 1] == records[..i];
    } else {
      var init := records[..|records| - 1];
      assert init[..i] == records[..i];
      RunStopped(rows0, init, i, isoDay, dateOk, nextId);
    }
  }

  /** The handler. Its result is the error that escapes it, if any: a missing secret
      before anything is answered, or a failing upsert. */
  method Handle(req: ApiRequest, res: Response, table: Table, env: Env, nowMs: int, c: Crypto,
                isoDay: string -> string, dateOk: string -> bool,
                nextId: map<string, DbRow> -> string, dbError: string)
    returns (thrown: Option<string>)
    modifies res`status, res`json, table`rows
    ensures var session := VerifySessionToken(SessionToken(req.cookies), env, nowMs, c);
      (session.Thrown? ==>
        thrown == Some(session.message) && res.status == old(res.status) && res.json == old(res.json)
        && table.rows == old(table.rows))
      && (session == Value(None) ==>
        thrown == None && res.status == 401 && res.json == ErrorJson(Unauthorized) && table.rows == old(table.rows))
      && (session.Value? && session.value.Some? && req.verb != Post ==>
        thrown == None && res.status == 405 && res.json == ErrorJson(MethodNotAllowed) && table.rows == old(table.rows))
      && (session.Value? && session.value.Some? && req.verb == Post && (!req.body.BulkBody? || req.body.records == []) ==>
        thrown == None && res.status == 400 && res.json == ErrorJson(NoInterns) && table.rows == old(table.rows))
      && (session.Value? && session.value.Some? && req.verb == Post && req.body.BulkBody? && req.body.records != [] ==>
        var b := Run(old(table.rows), req.body.records, isoDay, dateOk, nextId);
        table.rows == b.rows
        && (b.failed ==> thrown == Some(dbError) && res.status == old(res.status) && res.json == old(res.json))
        && (!b.failed ==> thrown == None && res.status == 200 && res.json == InternsJson(b.saved)))
    ensures req.body.BulkBody? && table.rows != old(table.rows) ==>
      var b := Run(old(table.rows), req.body.records, isoDay, dateOk, nextId);
      table.rows == b.rows && (b.failed <==> thrown == Some(dbError))
    ensures thrown == None && res.status == 200 ==>
      req.body.BulkBody?
      && var b := Run(old(table.rows), req.body.records, isoDay, dateOk, nextId);
      !b.failed && table.rows == b.rows && res.json == InternsJson(b.saved)
  {
    var session := RequireAdminSession(req, res, env, nowMs, c);
    if session.Thrown? {
      return Some(session.message);
    }
    if session.value.None? {
      return None;
    }
    if req.verb != Post {
      res.Send(405, ErrorJson(MethodNotAllowed));
      return None;
    }
    if !req.body.BulkBody? || req.body.records == [] {
      res.Send(400, ErrorJson(NoInterns));
      return None;
    }
    var saved, failed := UpsertAll(table, req.body.records, isoDay, dateOk, nextId);
    if failed {
      return Some(dbError);
    }
    res.Send(200, InternsJson(saved));
    return None;
  }

  // ------------------------------------------------------------ properties

  /** Every record names its id. */
  predicate Identified(records: seq<Incoming>) {
    forall i :: 0 <= i < |records| ==> Truthy(records[i].id)
  }

  /** The date column takes every record's date. */
  predicate DatesOk(records: seq<Incoming>, dateOk: string -> bool) {
    forall i :: 0 <= i < |records| ==> DateAccepted(OrElse(records[i].startDate, ""), dateOk)
  }

  /** The ids the records name. */
  function Ids(records: seq<Incoming>): (ids: set<string>)
    ensures forall i :: 0 <= i < |records| && records[i].id.Some? ==> records[i].id.value in ids
    decreases |records|
  {
    if records == [] then {}
    else
      var last := records[|records| - 1];
      Ids(records[..|records| - 1]) + (if last.id.Some? then {last.id.value} else {})
  }

  /** The last record naming `k` (no fields when there is none). */
  function LastWith(records: seq<Incoming>, k: string): Incoming
    decreases |records|
  {
    if records == [] then NoFields
    else if records[|records| - 1].id == Some(k) then records[|records| - 1]
    else LastWith(records[..|records| - 1], k)
  }

  /** `LastWith` is the record at the last position naming `k`. */
  lemma {:induction false} LastWithIsLast(records: seq<Incoming>, k: string)
    requires k in Ids(records)
    ensures exists i :: (0 <= i < |records| && records[i] == LastWith(records, k) && records[i].id == Some(k)
      && forall j :: i < j < |records| ==> records[j].id != Some(k))
    decreases |records|
  {
    var init := records[..|records| - 1];
    if records[|records| - 1].id != Some(k) {
      LastWithIsLast(init, k);
      var i :| 0 <= i < |init| && init[i] == LastWith(init, k) && init[i].id == Some(k)
        && forall j :: i < j < |init| ==> init[j].id != Some(k);
      assert records[i] == init[i];
    }
  }

  /** A reference definition of an identified batch: the table with each named id
      holding the last record naming it, over the image the table had. */
  function Overlay(rows0: map<string, DbRow>, records: seq<Incoming>): (rows: map<string, DbRow>)
    ensures rows.Keys == rows0.Keys + Ids(records)
  {
    map k | k in rows0.Keys + Ids(records) ::
      if k in Ids(records) then Stored(rows0, k, LastWith(records, k)) else rows0[k]
  }

  /** A run keeps every row, every row's image, and every row under its own id. */
  lemma {:induction false} RunKeepsImages(rows0: map<string, DbRow>, records: seq<Incoming>,
                                          isoDay: string -> string, dateOk: string -> bool,
                                          nextId: map<string, DbRow> -> string)
    ensures var rows := Run(rows0, records, isoDay, dateOk, nextId).rows;
      rows0.Keys <= rows.Keys && (forall k :: ImageIn(rows, k) == ImageIn(rows0, k))
      && (KeyedById(rows0) ==> KeyedById(rows))
    decreases |records|
  {
    if records != [] {
      RunKeepsImages(rows0, records[..|records| - 1], isoDay, dateOk, nextId);
    }
  }

  /** A failed run leaves the table of the records before the first refused one. */
  lemma {:induction false} FailureKeepsPrefix(rows0: map<string, DbRow>, records: seq<Incoming>,
                                              isoDay: string -> string, dateOk: string -> bool,
                                              nextId: map<string, DbRow> -> string)
    requires Run(rows0, records, isoDay, dateOk, nextId).failed
    ensures exists n :: (0 <= n < |records| && !DateAccepted(OrElse(records[n].startDate, ""), dateOk)
      && !Run(rows0, records[..n], isoDay, dateOk, nextId).failed
      && Run(rows0, records, isoDay, dateOk, nextId).rows == Run(rows0, records[..n], isoDay, dateOk, nextId).rows)
    decreases |records|
  {
    var init := records[..|records| - 1];
    if Run(rows0, init, isoDay, dateOk, nextId).failed {
      FailureKeepsPrefix(rows0, init, isoDay, dateOk, nextId);
      var n :| 0 <= n < |init| && !DateAccepted(OrElse(init[n].startDate, ""), dateOk)
        && !Run(rows0, init[..n], isoDay, dateOk, nextId).failed
        && Run(rows0, init, isoDay, dateOk, nextId).rows == Run(rows0, init[..n], isoDay, dateOk, nextId).rows;
      assert init[..n] == records[..n];
    } else {
      assert init == records[..|records| - 1];
    }
  }

  /** `Overlay` keeps the image of every row. */
  lemma OverlayImage(rows0: map<string, DbRow>, records: seq<Incoming>, k: string)
    ensures ImageIn(Overlay(rows0, records), k) == ImageIn(rows0, k)
  {
  }

  /** `Overlay` of a batch is that of all but its last record, updated by the last. */
  lemma OverlayStep(rows0: map<string, DbRow>, records: seq<Incoming>)
    requires records != [] && records[|records| - 1].id.Some?
    ensures var id := records[|records| - 1].id.value;
      Overlay(rows0, records)
        == Overlay(rows0, records[..|records| - 1])[id := Stored(rows0, id, records[|records| - 1])]
  {
    var init := records[..|records| - 1];
    var x := records[|records| - 1];
    var id := x.id.value;
    var before := Overlay(rows0, init);
    var full := Overlay(rows0, records);
    OverlayKeys(rows0, records);
    OverlayLast(rows0, records);
    forall k | k in before && k != id ensures full[k] == before[k] {
      OverlayOther(rows0, records, k);
    }
    UpdateExt(full, before, id, Stored(rows0, id, x));
  }

  /** A map that agrees with `before` off `id`, has `id` more and `v` at it, is
      `before[id := v]`. */
  lemma UpdateExt(full: map<string, DbRow>, before: map<string, DbRow>, id: string, v: DbRow)
    requires full.Keys == before.Keys + {id} && id in full && full[id] == v
    requires forall k :: k in before && k != id ==> full[k] == before[k]
    ensures full == before[id := v]
  {
  }

  /** The last record adds its id to the keys. */
  lemma OverlayKeys(rows0: map<string, DbRow>, records: seq<Incoming>)
    requires records != [] && records[|records| - 1].id.Some?
    ensures Overlay(rows0, records).Keys
      == Overlay(rows0, records[..|records| - 1]).Keys + {records[|records| - 1].id.value}
  {
    assert Ids(records) == Ids(records[..|records| - 1]) + {records[|records| - 1].id.value};
  }

  /** The last record's id is stored from that record. */
  lemma OverlayLast(rows0: map<string, DbRow>, records: seq<Incoming>)
    requires records != [] && records[|records| - 1].id.Some?
    ensures var id := records[|records| - 1].id.value;
      id in Overlay(rows0, records) && Overlay(rows0, records)[id] == Stored(rows0, id, records[|records| - 1])
  {
    var id := records[|records| - 1].id.value;
    assert id in Ids(records);
    assert LastWith(records, id) == records[|records| - 1];
  }

  /** Any other id keeps what the earlier records give it. */
  lemma OverlayOther(rows0: map<string, DbRow>, records: seq<Incoming>, k: string)
    requires records != [] && records[|records| - 1].id != Some(k)
    requires k in Overlay(rows0, records)
    ensures k in Overlay(rows0, records[..|records| - 1])
    ensures Overlay(rows0, records)[k] == Overlay(rows0, records[..|records| - 1])[k]
  {
    var init := records[..|records| - 1];
    assert LastWith(records, k) == LastWith(init, k);
    assert k in Ids(records) <==> k in Ids(init);
  }

  /** An identified batch whose dates are all taken leaves the table `Overlay`
      describes: for each id, the last record naming it wins. */
  lemma {:induction false} RunOverlay(rows0: map<string, DbRow>, records: seq<Incoming>,
                                      isoDay: string -> string, dateOk: string -> bool,
                                      nextId: map<string, DbRow> -> string)
    requires Identified(records) && DatesOk(records, dateOk)
    ensures !Run(rows0, records, isoDay, dateOk, nextId).failed
    ensures Run(rows0, records, isoDay, dateOk, nextId).rows == Overlay(rows0, records)
    decreases |records|
  {
    if records == [] {
      assert Overlay(rows0, records) == rows0;
    } else {
      var init := records[..|records| - 1];
      var x := records[|records| - 1];
      assert Identified(init) && DatesOk(init, dateOk) by {
        assert forall i :: 0 <= i < |init| ==> init[i] == records[i];
      }
      RunOverlay(rows0, init, isoDay, dateOk, nextId);
      OverlayImage(rows0, init, x.id.value);
      assert Stored(Overlay(rows0, init), x.id.value, x) == Stored(rows0, x.id.value, x);
      OverlayStep(rows0, records);
    }
  }

  /** Laying a batch over its own overlay changes nothing. */
  lemma OverlayTwice(rows0: map<string, DbRow>, records: seq<Incoming>)
    ensures Overlay(Overlay(rows0, records), records) == Overlay(rows0, records)
  {
    var once := Overlay(rows0, records);
    forall k | k in Ids(records)
      ensures Overlay(once, records)[k] == once[k]
    {
      OverlayImage(rows0, records, k);
      assert Stored(once, k, LastWith(records, k)) == Stored(rows0, k, LastWith(records, k));
    }
  }

  /** In an identified batch whose dates are all taken, the i-th saved record is the
      i-th record with its defaults and the image its row already had. */
  lemma {:induction false} BulkSaved(rows0: map<string, DbRow>, records: seq<Incoming>,
                                     isoDay: string -> string, dateOk: string -> bool,
                                     nextId: map<string, DbRow> -> string)
    requires Identified(records) && DatesOk(records, dateOk)
    ensures var b := Run(rows0, records, isoDay, dateOk, nextId);
      !b.failed && |b.saved| == |records|
      && forall i :: 0 <= i < |records| ==>
        b.saved[i] == SavedRecord(rows0, records[i], isoDay)
    decreases |records|
  {
    if records != [] {
      var init := records[..|records| - 1];
      assert Identified(init) && DatesOk(init, dateOk) by {
        assert forall i :: 0 <= i < |init| ==> init[i] == records[i];
      }
      BulkSaved(rows0, init, isoDay, dateOk, nextId);
      SavedLast(rows0, records, isoDay, dateOk, nextId);
      SavedAppend(Run(rows0, records, isoDay, dateOk, nextId).saved, Run(rows0, init, isoDay, dateOk, nextId).saved,
                  records, rows0, isoDay);
    }
  }

  lemma SavedAppend(saved: seq<Intern>, before: seq<Intern>, records: seq<Incoming>,
                    rows0: map<string, DbRow>, isoDay: string -> string)
    requires records != [] && |before| == |records| - 1
    requires forall i :: 0 <= i < |before| ==> before[i] == SavedRecord(rows0, records[..|records| - 1][i], isoDay)
    requires saved == before + [SavedRecord(rows0, records[|records| - 1], isoDay)]
    ensures forall i :: 0 <= i < |records| ==> saved[i] == SavedRecord(rows0, records[i], isoDay)
  {
    forall i | 0 <= i < |records| ensures saved[i] == SavedRecord(rows0, records[i], isoDay) {
      if i < |before| {
        assert records[..|records| - 1][i] == records[i];
      }
    }
  }

  /** What the upsert of an identified record answers, read back through `toIntern`. */
  function SavedRecord(rows0: map<string, DbRow>, x: Incoming, isoDay: string -> string): Intern {
    ToIntern(Stored(rows0, OrElse(x.id, ""), x), isoDay)
  }

  /** The last record of a batch adds its stored row to the saved list. */
  lemma SavedLast(rows0: map<string, DbRow>, records: seq<Incoming>,
                  isoDay: string -> string, dateOk: string -> bool,
                  nextId: map<string, DbRow> -> string)
    requires records != []
    requires Truthy(records[|records| - 1].id)
    requires DateAccepted(OrElse(records[|records| - 1].startDate, ""), dateOk)
    requires !Run(rows0, records[..|records| - 1], isoDay, dateOk, nextId).failed
    ensures var x := records[|records| - 1];
      Run(rows0, records, isoDay, dateOk, nextId).saved
        == Run(rows0, records[..|records| - 1], isoDay, dateOk, nextId).saved
           + [SavedRecord(rows0, x, isoDay)]
  {
    var init := records[..|records| - 1];
    var x := records[|records| - 1];
    RunKeepsImages(rows0, init, isoDay, dateOk, nextId);
    assert ImageIn(Run(rows0, init, isoDay, dateOk, nextId).rows, x.id.value) == ImageIn(rows0, x.id.value);
  }

  /** Importing the same identified batch again changes nothing and answers the same
      records. */
  lemma BulkIdempotent(rows0: map<string, DbRow>, records: seq<Incoming>,
                       isoDay: string -> string, dateOk: string -> bool,
                       nextId: map<string, DbRow> -> string)
    requires Identified(records) && DatesOk(records, dateOk)
    ensures var once := Run(rows0, records, isoDay, dateOk, nextId);
      var twice := Run(once.rows, records, isoDay, dateOk, nextId);
      twice.rows == once.rows && twice.saved == once.saved
  {
    var once := Run(rows0, records, isoDay, dateOk, nextId);
    RunOverlay(rows0, records, isoDay, dateOk, nextId);
    RunOverlay(once.rows, records, isoDay, dateOk, nextId);
    OverlayTwice(rows0, records);
    SavedAgain(rows0, records, isoDay, dateOk, nextId);
  }

  lemma SavedAgain(rows0: map<string, DbRow>, records: seq<Incoming>,
                   isoDay: string -> string, dateOk: string -> bool,
                   nextId: map<string, DbRow> -> string)
    requires Identified(records) && DatesOk(records, dateOk)
    ensures var once := Run(rows0, records, isoDay, dateOk, nextId);
      Run(once.rows, records, isoDay, dateOk, nextId).saved == once.saved
  {
    var once := Run(rows0, records, isoDay, dateOk, nextId);
    var twice := Run(once.rows, records, isoDay, dateOk, nextId);
    RunKeepsImages(rows0, records, isoDay, dateOk, nextId);
    BulkSaved(rows0, records, isoDay, dateOk, nextId);
    BulkSaved(once.rows, records, isoDay, dateOk, nextId);
    forall i | 0 <= i < |records| ensures twice.saved[i] == once.saved[i] {
      var id := records[i].id.value;
      assert ImageIn(once.rows, id) == ImageIn(rows0, id);
      assert Stored(once.rows, id, records[i]) == Stored(rows0, id, records[i]);
    }
  }

  /** A record without an id, when the next id is free, adds exactly one row. */
  lemma UnidentifiedAddsRow(b: Batch, x: Incoming, isoDay: string -> string, dateOk: string -> bool,
                            nextId: map<string, DbRow> -> string)
    requires !b.failed && !Truthy(x.id) && DateAccepted(OrElse(x.startDate, ""), dateOk)
    requires nextId(b.rows) !in b.rows
    ensures Step(b, x, isoDay, dateOk, nextId).rows.Keys == b.rows.Keys + {nextId(b.rows)}
    ensures |Step(b, x, isoDay, dateOk, nextId).rows| == |b.rows| + 1
  {
  }
}
