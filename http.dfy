/** The requests the admin page sends and the replies it reads back; the server
    itself is outside the client, so its replies reach the model as parameters. */
module Http {
  import opened Types

  datatype Verb = Get | Post | Put | Delete | Patch

  /** The JSON body a request carries. */
  datatype Body =
    | NoBody
    | InternBody(intern: Intern)
    | RecordBody(record: Incoming)
    | BulkBody(records: seq<Incoming>)

  datatype Request = Request(verb: Verb, path: string, body: Body)

  /** What a `fetch` resolves to, as the page reads it: an ok response with its
      payload, or a failed one with the `error` field of its JSON body, if any. */
  datatype Reply<T> = Ok(value: T) | Failed(error: Option<string>)

  /** `data?.error || fallback` */
  function ErrorMessage(error: Option<string>, fallback: string): (m: string)
    ensures Truthy(error) ==> m == error.value
    ensures !Truthy(error) ==> m == fallback
    ensures fallback != "" ==> m != ""
  {
    if Truthy(error) then error.value else fallback
  }

  const InternsPath := "/api/interns"

  /** `/api/interns/${id}` */
  function InternPath(id: string): (p: string)
    ensures |p| == |InternsPath| + 1 + |id| && p[..|InternsPath| + 1] == InternsPath + "/"
    ensures p[|InternsPath| + 1..] == id
  {
    InternsPath + "/" + id
  }
}
