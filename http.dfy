/** The parts of an Express request the middleware reads and writes. */
module Http {
  import opened Wrappers
  import opened Json
  import opened Platform
  import opened Errors

  class Request {
    /** `req.method` */
    var httpMethod: string
    /** `req.headers.authorization` */
    var authorization: Option<string>
    /** What `req.is('application/json')` answers for the request's content type. */
    var isJson: bool
    var body: Record
    var params: Record
    var query: Record
    /** `req.user`, set by the authentication middleware. */
    var user: Option<Claims>

    /** Objects never hold one key twice. */
    predicate Valid()
      reads this
    {
      DistinctKeys(body) && DistinctKeys(params) && DistinctKeys(query)
    }

    constructor (httpMethod: string, authorization: Option<string>, isJson: bool, body: Record, params: Record, query: Record)
      requires DistinctKeys(body) && DistinctKeys(params) && DistinctKeys(query)
      ensures Valid()
      ensures this.httpMethod == httpMethod && this.authorization == authorization && this.isJson == isJson
      ensures this.body == body && this.params == params && this.query == query && user.None?
    {
      this.httpMethod := httpMethod;
      this.authorization := authorization;
      this.isJson := isJson;
      this.body := body;
      this.params := params;
      this.query := query;
      user := None;
    }
  }

  /** What a middleware does with a request: pass it on with `next()`, or
      answer it with the failure. */
  datatype Outcome = Next | Stop(failure: Failure)
}
