/** The status decision of the single-intern route `/api/interns/{id}`
    (api/interns/[id].ts): the id check, then the session, then the verb. The SQL
    it runs is reduced to whether the row exists. */
module InternRoute {
  import opened Types
  import opened Http

  /** The `{id}` segment of a path routed here. */
  function RouteId(path: string): (id: Option<string>)
    ensures id.Some? <==> |path| >= |InternsPath| + 1 && path[..|InternsPath| + 1] == InternsPath + "/"
    ensures id.Some? ==> InternPath(id.value) == path
  {
    var n := |InternsPath| + 1;
    if |path| >= n && path[..n] == InternsPath + "/" then
      assert path == path[..n] + path[n..];
      Some(path[n..])
    else None
  }

  lemma RouteIdOfPath(id: string)
    ensures RouteId(InternPath(id)) == Some(id)
  {
  }

  /** The status the route answers `req` with, given whether the caller has a valid
      admin session and whether a row with the id exists. */
  function Status(req: Request, authed: bool, found: bool): (status: int)
    requires RouteId(req.path).Some?
    ensures RouteId(req.path).value == "" ==> status == 400
    ensures RouteId(req.path).value != "" && !authed ==> status == 401
    ensures status == 405 <==>
      (RouteId(req.path).value != "" && authed && req.verb != Put && req.verb != Delete)
    ensures status == 200 <==>
      (RouteId(req.path).value != "" && authed && (req.verb == Delete || (req.verb == Put && found)))
    ensures status == 404 <==> (RouteId(req.path).value != "" && authed && req.verb == Put && !found)
  {
    var id := RouteId(req.path).value;
    if id == "" then 400
    else if !authed then 401
    else if req.verb == Put then (if found then 200 else 404)
    else if req.verb == Delete then 200
    else 405
  }
}
