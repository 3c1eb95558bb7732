/** The values the router reads and produces.

    Controller metadata arrives as explicit descriptors instead of being
    read reflectively; the request arrives with its URL already parsed into
    a pathname and a query map. */
module RouterTypes {

  datatype Option<+T> = None | Some(value: T)

  /** A value the router passes along without looking inside it: the
      request body, or what a controller method returns. */
  datatype Opaque = Opaque(repr: string)

  /** A parsed query value: one string, or a list of strings when the key repeats. */
  datatype QueryValue = One(text: string) | Many(texts: seq<string>)

  /** One bound argument of a controller method, as declared in its metadata.
      `kind` is the binding's `type` tag ("param", "body", "query" or anything else). */
  datatype Binding = Binding(index: int, kind: string, name: string)

  /** The optional response directive of a controller method. */
  datatype Directive = Directive(statusCode: int, contentType: string)

  /** The metadata of one controller method: its name, its HTTP verb and path
      suffix (either may be missing), its bindings (missing when none were
      declared) and its optional response directive. */
  datatype Descriptor = Descriptor(
    action: string,
    httpMethod: Option<string>,
    path: Option<string>,
    bindings: Option<seq<Binding>>,
    response: Option<Directive>)

  /** A controller: its base path (missing when none was declared) and the
      metadata of its methods in property order. */
  datatype Controller = Controller(basePath: Option<string>, methods: seq<Descriptor>)

  /** What a route's handler closes over: the controller method it calls, the
      bindings it resolves and the response directive it honours. */
  datatype Handler = Handler(action: string, bindings: seq<Binding>, response: Option<Directive>)

  /** A registered route. `verb` is stored exactly as declared. */
  datatype Route = Route(verb: string, path: string, handler: Handler)

  /** A resolved handler argument. */
  datatype Arg = Undefined | Text(text: string) | Query(value: QueryValue) | Payload(body: Opaque)

  /** The body written after the handler: JSON-serialised, or verbatim. */
  datatype Written = Serialised(value: Opaque) | Verbatim(value: Opaque)

  /** The response a directive makes the router write. */
  datatype Write = Write(statusCode: int, contentType: string, body: Written)

  /** The outcome of dispatching one request: a plain reply written by the
      router itself (the 404 branch), or the index of the route whose handler
      ran, the bindings in the order it resolved them, the arguments, the
      controller's result and the response write, if any. */
  datatype Outcome =
    | Replied(status: int, text: string)
    | Dispatched(route: nat, order: seq<Binding>, args: seq<Arg>, result: Opaque, write: Option<Write>)

  /** An incoming request. The router reads the method, the parsed URL and
      the body, and fills in `params` and `query` before the handler runs. */
  class Request {
    const verb: Option<string>
    const pathname: string
    const rawQuery: map<string, Option<QueryValue>>
    const body: Opaque
    var params: map<string, Option<string>>
    var query: map<string, QueryValue>

    constructor (verb: Option<string>, pathname: string, rawQuery: map<string, Option<QueryValue>>, body: Opaque)
      ensures this.verb == verb && this.pathname == pathname
      ensures this.rawQuery == rawQuery && this.body == body
      ensures params == map[] && query == map[]
    {
      this.verb := verb;
      this.pathname := pathname;
      this.rawQuery := rawQuery;
      this.body := body;
      params := map[];
      query := map[];
    }
  }
}
