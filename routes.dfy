/**
 * The entry builder (the closures made by `getCreateEntry`): a declared
 * route becomes an entry once the base URL is known, and the entry's handler
 * answers only requests whose method and path both match.
 */
module Routes {
  import opened Wrappers
  import opened Strings
  import opened Template
  import opened Matcher

  /** The eight methods the route builders are made for. */
  datatype HttpMethod = Get | Put | Post | Delete | Options | Head | Patch | Trace
  {
    /** The lower-case name an entry compares against. */
    function Token(): string
    {
      match this
      case Get => "get"
      case Put => "put"
      case Post => "post"
      case Delete => "delete"
      case Options => "options"
      case Head => "head"
      case Patch => "patch"
      case Trace => "trace"
    }
  }

  /** A request as the router sees it: its method, its raw URL pathname and its query string. */
  datatype Request = Request(verb: string, pathname: string, query: string)

  /** A response: a status and a body. */
  datatype Response = Response(status: int, body: string)

  /** A user handler: given the request and the matched path parameters, a response or `undefined`. */
  type Action = (Request, Params) -> Option<Response>

  /** What a per-method route builder returns: a method, a template and a user handler, waiting for the base URL. */
  datatype Declaration = Declaration(verb: HttpMethod, path: string, action: Action)

  /** A resolved entry: the captured method and user handler, and the path segments. */
  datatype Entry = Entry(verb: HttpMethod, segments: seq<Segment>, action: Action)

  /**
   * The base-URL pieces (src/index.ts:150): none without a base URL,
   * otherwise its non-empty `/`-pieces, each free of `/`.
   */
  function BaseUrlPathSegments(baseUrl: Option<string>): (pieces: seq<string>)
    ensures baseUrl.None? ==> pieces == []
    ensures forall i :: 0 <= i < |pieces| ==> pieces[i] != "" && '/' !in pieces[i]
    ensures baseUrl.Some? ==> pieces == PathPieces(baseUrl.value)
  {
    match baseUrl
    case None => []
    case Some(b) => PathPieces(b)
  }

  /**
   * A base URL written as `/` followed by its pieces joined with `/` yields
   * exactly those pieces, so every list of non-empty, slash-free pieces is
   * the base of some base URL and no base URL loses a piece.
   */
  lemma BaseUrlRoundTrip(ps: seq<string>)
    requires forall i :: 0 <= i < |ps| ==> ps[i] != "" && '/' !in ps[i]
    ensures BaseUrlPathSegments(Some("/" + Join(ps, '/'))) == ps
  {
    PathPiecesAbsolute(ps);
  }

  /** Base-URL pieces are stable: joining them with `/` and cutting again gives the same pieces. */
  lemma BaseUrlPiecesRejoin(b: string)
    ensures PathPieces(Join(BaseUrlPathSegments(Some(b)), '/')) == BaseUrlPathSegments(Some(b))
  {
    PathPiecesJoin(PathPieces(b));
  }

  /**
   * Resolving a declaration: the base-URL pieces, kept as literals and never
   * parsed, followed by the parsed template.
   */
  function Resolve(d: Declaration, baseUrlPathSegments: seq<string>): (e: Entry)
    ensures e.verb == d.verb && e.action == d.action
    ensures |e.segments| == |baseUrlPathSegments| + |PathPieces(d.path)|
    ensures forall i :: 0 <= i < |baseUrlPathSegments| ==> e.segments[i] == Literal(baseUrlPathSegments[i])
    ensures e.segments[|baseUrlPathSegments|..] == ParsePathTemplate(d.path)
  {
    var segments := Literals(baseUrlPathSegments) + ParsePathTemplate(d.path);
    assert segments[|baseUrlPathSegments|..] == ParsePathTemplate(d.path);
    Entry(d.verb, segments, d.action)
  }

  /** The entry's two checks: the lower-cased request method is the entry's, and the path matches. */
  predicate Admits(e: Entry, req: Request)
  {
    Lower(req.verb) == e.verb.Token() && Matched(e.segments, PathPieces(req.pathname)).Some?
  }

  /** The entry's handler as a value: `undefined` unless both checks pass, else the user handler's answer. */
  function Respond(e: Entry, req: Request): Option<Response>
  {
    if Admits(e, req) then e.action(req, Matched(e.segments, PathPieces(req.pathname)).value) else None
  }

  /**
   * The entry's handler: the method check first, then `matchPath`, then the
   * user handler with the matched parameters. `invoked` records whether the
   * user handler ran.
   */
  method HandleEntry(e: Entry, req: Request) returns (r: Option<Response>, ghost invoked: bool)
    ensures Lower(req.verb) != e.verb.Token() ==> r.None? && !invoked
    ensures Matched(e.segments, PathPieces(req.pathname)).None? ==> r.None? && !invoked
    ensures invoked <==> Admits(e, req)
    ensures invoked ==> r == e.action(req, Matched(e.segments, PathPieces(req.pathname)).value)
    ensures r == Respond(e, req)
  {
    if Lower(req.verb) != e.verb.Token() {
      return None, false;
    }
    var pathParams := MatchPath(req.pathname, e.segments);
    if pathParams.None? {
      return None, false;
    }
    r := e.action(req, pathParams.value);
    invoked := true;
  }

  /**
   * With a base URL, a request path matches a resolved entry exactly when it
   * starts with the base pieces and the rest matches the template alone.
   */
  lemma ResolvedMatches(d: Declaration, baseUrl: Option<string>, pathname: string)
    ensures
      var base := BaseUrlPathSegments(baseUrl);
      var pieces := PathPieces(pathname);
      Matched(Resolve(d, base).segments, pieces) ==
        if |pieces| >= |base| && pieces[..|base|] == base then Matched(ParsePathTemplate(d.path), pieces[|base|..]) else None
  {
    var base := BaseUrlPathSegments(baseUrl);
    MatchedLiteralPrefix(base, ParsePathTemplate(d.path), PathPieces(pathname));
  }
}
