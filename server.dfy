/** What the API handlers read from a request and write to a response. Cookie
    parsing and serialisation are outside the model: a request arrives with its
    cookies as a map, and a response keeps the attributes of the cookie it sets. */
module Server {
  import opened Types
  import opened Http

  /** The `Set-Cookie` attributes a handler asks for. */
  datatype Cookie = Cookie(
    name: string,
    value: string,
    httpOnly: bool,
    secure: bool,
    sameSite: string,
    path: string,
    maxAge: int)

  /** The JSON bodies the handlers send: `{ ok: false, error }` or an `ok: true`
      body carrying one record or a list of them. */
  datatype Json =
    | NoJson
    | ErrorJson(error: string)
    | InternJson(intern: Intern)
    | InternsJson(interns: seq<Intern>)

  /** The deployment's environment variables. */
  datatype Env = Env(sessionSecret: Option<string>, nodeEnv: Option<string>)

  /** A request as the handlers use it: its method, its cookies and its parsed body. */
  datatype ApiRequest = ApiRequest(verb: Verb, cookies: map<string, string>, body: Body)

  class Response {
    var status: int
    var json: Json
    var cookie: Option<Cookie>

    /** A fresh response: status 200 until a handler sets one, nothing sent. */
    constructor()
      ensures status == 200 && json == NoJson && cookie == None
    {
      status := 200;
      json := NoJson;
      cookie := None;
    }

    /** `res.status(code).json(body)` */
    method Send(code: int, body: Json)
      modifies this`status, this`json
      ensures status == code && json == body
    {
      status := code;
      json := body;
    }

    /** `res.setHeader('Set-Cookie', serialize(...))` */
    method SetCookie(c: Cookie)
      modifies this`cookie
      ensures cookie == Some(c)
    {
      cookie := Some(c);
    }
  }
}
