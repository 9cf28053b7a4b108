/**
 * The petstore scenario of the repository's test: `GET /pet/{petId}` declared
 * before `GET /pet/findByStatus`, requests for `/pet/123`,
 * `/pet/findByStatus?status=available` and `/not-found`, and the same route
 * behind the base URL `/api`. The user handlers stay abstract.
 */
module Petstore {
  import opened Wrappers
  import opened Strings
  import opened Template
  import opened Matcher
  import opened Specificity
  import opened Routes
  import opened Sorting
  import opened Dispatch

  function GetPet(a: Action): Declaration
  {
    Declaration(Get, "/pet/{petId}", a)
  }

  function FindByStatus(a: Action): Declaration
  {
    Declaration(Get, "/pet/findByStatus", a)
  }

  /** The declarations in the order the test lists them. */
  function Declarations(a1: Action, a2: Action): seq<Declaration>
  {
    [GetPet(a1), FindByStatus(a2)]
  }

  /** A `GET` request carrying its URL's pathname and query string. */
  function GetRequest(pathname: string, query: string): Request
  {
    Request("GET", pathname, query)
  }

  /** The handler the test builds: the table in sorted order and the given not-found policy. */
  function PetstoreHandler(a1: Action, a2: Action, returnUndefined: bool): Handler
  {
    Handler([Resolve(FindByStatus(a2), []), Resolve(GetPet(a1), [])], returnUndefined)
  }

  /** The test's requests use the method `GET`, which lower-cases to the entries' `get`. */
  lemma LowerGet()
    ensures Lower("GET") == "get"
  {
    assert Lower("GET")[0] == 'g' && Lower("GET")[1] == 'e' && Lower("GET")[2] == 't';
  }

  /** Helpers that cut a concrete absolute path into its pieces. */
  lemma Pieces2(path: string, p0: string, p1: string)
    requires p0 != "" && '/' !in p0 && p1 != "" && '/' !in p1
    requires path == "/" + p0 + "/" + p1
    ensures PathPieces(path) == [p0, p1]
  {
    assert path == "/" + Join([p0, p1], '/');
    PathPiecesAbsolute([p0, p1]);
  }

  lemma Pieces1(path: string, p0: string)
    requires p0 != "" && '/' !in p0
    requires path == "/" + p0
    ensures PathPieces(path) == [p0]
  {
    assert path == "/" + Join([p0], '/');
    PathPiecesAbsolute([p0]);
  }

  lemma Pieces3(path: string, p0: string, p1: string, p2: string)
    requires p0 != "" && '/' !in p0 && p1 != "" && '/' !in p1 && p2 != "" && '/' !in p2
    requires path == "/" + p0 + "/" + p1 + "/" + p2
    ensures PathPieces(path) == [p0, p1, p2]
  {
    assert [p0, p1, p2][1..] == [p1, p2] && [p1, p2][1..] == [p2];
    assert Join([p1, p2], '/') == p1 + "/" + p2;
    assert Join([p0, p1, p2], '/') == p0 + "/" + (p1 + "/" + p2);
    assert path == "/" + Join([p0, p1, p2], '/');
    PathPiecesAbsolute([p0, p1, p2]);
  }

  /** A braced name with no star and no line terminator parses to a simple, non-exploding parameter. */
  lemma ParamPiece(piece: string, x: string)
    requires piece == "{" + x + "}" && |x| >= 1 && NoLineTerminator(x) && x[|x| - 1] != '*'
    ensures ParseSegment(piece) == Param(x, Simple, false)
  {
    assert Inner(piece) == x;
  }

  /** A piece that does not open with `{` stays a literal. */
  lemma LiteralPiece(w: string)
    requires |w| > 0 && w[0] != '{'
    ensures ParseSegment(w) == Literal(w)
  {
  }

  /** A two-piece template parses piece by piece. */
  lemma ParseTwo(path: string, p0: string, p1: string)
    requires PathPieces(path) == [p0, p1]
    ensures ParsePathTemplate(path) == [ParseSegment(p0), ParseSegment(p1)]
  {
  }

  /** The template shapes of the scenario: `/w/{x}`, `/{x}/w` and `/w1/w2`. */
  lemma LiteralThenParam(path: string, w: string, x: string)
    requires |w| > 0 && '/' !in w && w[0] != '{'
    requires |x| >= 1 && '/' !in x && NoLineTerminator(x) && x[|x| - 1] != '*'
    requires path == "/" + w + "/" + ("{" + x + "}")
    ensures ParsePathTemplate(path) == [Literal(w), Param(x, Simple, false)]
  {
    Pieces2(path, w, "{" + x + "}");
    LiteralPiece(w);
    ParamPiece("{" + x + "}", x);
    ParseTwo(path, w, "{" + x + "}");
  }

  lemma ParamThenLiteral(path: string, x: string, w: string)
    requires |w| > 0 && '/' !in w && w[0] != '{'
    requires |x| >= 1 && '/' !in x && NoLineTerminator(x) && x[|x| - 1] != '*'
    requires path == "/" + ("{" + x + "}") + "/" + w
    ensures ParsePathTemplate(path) == [Param(x, Simple, false), Literal(w)]
  {
    Pieces2(path, "{" + x + "}", w);
    LiteralPiece(w);
    ParamPiece("{" + x + "}", x);
    ParseTwo(path, "{" + x + "}", w);
  }

  lemma TwoLiterals(path: string, w1: string, w2: string)
    requires |w1| > 0 && '/' !in w1 && w1[0] != '{'
    requires |w2| > 0 && '/' !in w2 && w2[0] != '{'
    requires path == "/" + w1 + "/" + w2
    ensures ParsePathTemplate(path) == [Literal(w1), Literal(w2)]
  {
    Pieces2(path, w1, w2);
    LiteralPiece(w1);
    LiteralPiece(w2);
    ParseTwo(path, w1, w2);
  }

  /** The two templates parse to a literal and a simple parameter, and to two literals. */
  lemma PetTemplates()
    ensures ParsePathTemplate("/pet/{petId}") == [Literal("pet"), Param("petId", Simple, false)]
    ensures ParsePathTemplate("/pet/findByStatus") == [Literal("pet"), Literal("findByStatus")]
  {
    PetIdTemplate();
    FindByStatusTemplate();
  }

  /** One lemma per concrete template keeps each literal string in a proof context of its own. */
  lemma PetIdTemplate()
    ensures ParsePathTemplate("/pet/{petId}") == [Literal("pet"), Param("petId", Simple, false)]
  {
    LiteralThenParam("/pet/{petId}", "pet", "petId");
  }

  lemma FindByStatusTemplate()
    ensures ParsePathTemplate("/pet/findByStatus") == [Literal("pet"), Literal("findByStatus")]
  {
    TwoLiterals("/pet/findByStatus", "pet", "findByStatus");
  }

  lemma KindListTemplate()
    ensures ParsePathTemplate("/{kind}/list") == [Param("kind", Simple, false), Literal("list")]
  {
    ParamThenLiteral("/{kind}/list", "kind", "list");
  }

  lemma PetsIdTemplate()
    ensures ParsePathTemplate("/pets/{id}") == [Literal("pets"), Param("id", Simple, false)]
  {
    LiteralThenParam("/pets/{id}", "pets", "id");
  }

  /** Without a base URL an entry's segments are the parsed template. */
  lemma ResolveNoBase(d: Declaration)
    ensures Resolve(d, []) == Entry(d.verb, ParsePathTemplate(d.path), d.action)
  {
    var e := Resolve(d, []);
    assert e.segments == e.segments[0..];
  }

  /** The two entries the test's declarations resolve to. */
  lemma PetEntries(a1: Action, a2: Action)
    ensures Resolve(GetPet(a1), []) == Entry(Get, [Literal("pet"), Param("petId", Simple, false)], a1)
    ensures Resolve(FindByStatus(a2), []) == Entry(Get, [Literal("pet"), Literal("findByStatus")], a2)
  {
    PetTemplates();
    ResolveNoBase(GetPet(a1));
    ResolveNoBase(FindByStatus(a2));
  }

  /** Sorting two entries swaps them exactly when the second precedes the first. */
  lemma SortTwo(x: Entry, y: Entry)
    requires Precedes(y.segments, x.segments)
    ensures Sort([x, y]) == [y, x]
  {
    assert [x, y][..1] == [x] && [x][..0] == [];
    assert Sort([x]) == [x];
    assert [x][..0] == [];
    assert Insert([x], y) == [y, x];
  }

  /** At equal length, two literals precede a literal and a parameter. */
  lemma LiteralsFirst(x: Entry, y: Entry, a: string, n: string, b: string)
    requires x.segments == [Literal(a), Param(n, Simple, false)]
    requires y.segments == [Literal(a), Literal(b)]
    ensures Precedes(y.segments, x.segments)
  {
    assert Kinds(x.segments) == [true, false];
    assert Kinds(y.segments) == [true, true];
    assert Count([true, false]) == 1 && Count([true, true]) == 2;
  }

  /** The sorted table of two declarations with no base URL. */
  lemma TableOfTwo(d1: Declaration, d2: Declaration)
    requires Precedes(Resolve(d2, []).segments, Resolve(d1, []).segments)
    ensures Sort(ResolveAll([d1, d2], BaseUrlPathSegments(None))) == [Resolve(d2, []), Resolve(d1, [])]
  {
    var x, y := Resolve(d1, []), Resolve(d2, []);
    assert ResolveAll([d1, d2], []) == [x, y];
    SortTwo(x, y);
  }

  /** The literal route is tried first although it is declared second. */
  lemma PetstoreTable(a1: Action, a2: Action)
    ensures Sort(ResolveAll(Declarations(a1, a2), BaseUrlPathSegments(None))) ==
      [Resolve(FindByStatus(a2), []), Resolve(GetPet(a1), [])]
  {
    PetEntries(a1, a2);
    LiteralsFirst(Resolve(GetPet(a1), []), Resolve(FindByStatus(a2), []), "pet", "petId", "findByStatus");
    TableOfTwo(GetPet(a1), FindByStatus(a2));
  }

  /** The handler's result over a two-entry table, written out. */
  lemma OutcomeOfTwo(h: Handler, req: Request)
    requires |h.entries| == 2
    ensures
      var r0, r1 := Respond(h.entries[0], req), Respond(h.entries[1], req);
      Outcome(h, req) ==
        if r0.Some? then r0 else if r1.Some? then r1 else if h.returnUndefined then None else Some(NotFound())
  {
    var t := h.entries;
    assert t[1..][0] == t[1] && t[1..][1..] == [];
    assert FirstResponse(t[1..], req) == Respond(t[1], req);
  }

  /** For a `get` entry and a `GET` request, the entry answers whenever the path matches. */
  lemma RespondGet(e: Entry, req: Request)
    requires e.verb == Get && Lower(req.verb) == "get"
    ensures
      var m := Matched(e.segments, PathPieces(req.pathname));
      Respond(e, req) == if m.Some? then e.action(req, m.value) else None
  {
  }

  /** Matching `x/{n}` against two pieces. */
  lemma MatchLiteralParam(x: string, n: string, p0: string, p1: string)
    ensures Matched([Literal(x), Param(n, Simple, false)], [p0, p1]) == if p0 == x then Some(map[n := p1]) else None
  {
    var segs: seq<Segment> := [Literal(x), Param(n, Simple, false)];
    var pieces := [p0, p1];
    assert segs[..1] == [Literal(x)] && pieces[..1] == [p0];
    assert [Literal(x)][..0] == [] && [p0][..0] == [];
    assert Bind([Literal(x)], [p0]) == map[];
    assert Bind(segs, pieces) == map[n := p1];
    assert LiteralsAgree(segs, pieces) <==> p0 == x;
  }

  /** Matching `x/y` against two pieces. */
  lemma MatchLiterals(x: string, y: string, p0: string, p1: string)
    ensures Matched([Literal(x), Literal(y)], [p0, p1]) == if p0 == x && p1 == y then Some(map[]) else None
  {
    var segs: seq<Segment> := [Literal(x), Literal(y)];
    assert segs[0].text == x && segs[1].text == y;
    assert LiteralsAgree(segs, [p0, p1]) <==> p0 == x && p1 == y;
    if p0 == x && p1 == y {
      MatchedNoParams(segs, [p0, p1]);
    }
  }

  /** `/pet/123` binds `petId` to `"123"` and is answered by the parameter route alone. */
  lemma PetById(a1: Action, a2: Action)
    ensures
      var req := GetRequest("/pet/123", "");
      var answer := a1(req, map["petId" := "123"]);
      Outcome(PetstoreHandler(a1, a2, false), req) == if answer.Some? then answer else Some(NotFound())
  {
    var req := GetRequest("/pet/123", "");
    Pieces2("/pet/123", "pet", "123");
    LowerGet();
    PetEntries(a1, a2);
    var h := PetstoreHandler(a1, a2, false);
    OutcomeOfTwo(h, req);
    RespondGet(h.entries[0], req);
    RespondGet(h.entries[1], req);
    MatchLiterals("pet", "findByStatus", "pet", "123");
    MatchLiteralParam("pet", "petId", "pet", "123");
  }

  /**
   * `/pet/findByStatus` reaches the literal route first, with no path
   * parameters; only if that handler declines does the parameter route see
   * it, with `petId` bound to `"findByStatus"`.
   */
  lemma PetByStatus(a1: Action, a2: Action)
    ensures
      var req := GetRequest("/pet/findByStatus", "status=available");
      var first := a2(req, map[]);
      var second := a1(req, map["petId" := "findByStatus"]);
      Outcome(PetstoreHandler(a1, a2, false), req) ==
        if first.Some? then first else if second.Some? then second else Some(NotFound())
  {
    var req := GetRequest("/pet/findByStatus", "status=available");
    Pieces2("/pet/findByStatus", "pet", "findByStatus");
    LowerGet();
    PetEntries(a1, a2);
    var h := PetstoreHandler(a1, a2, false);
    OutcomeOfTwo(h, req);
    RespondGet(h.entries[0], req);
    RespondGet(h.entries[1], req);
    MatchLiterals("pet", "findByStatus", "pet", "findByStatus");
    MatchLiteralParam("pet", "petId", "pet", "findByStatus");
  }

  /** `/not-found` matches neither route: 404, or `undefined` when `returnUndefined` is set. */
  lemma NotFoundPath(a1: Action, a2: Action, returnUndefined: bool)
    ensures
      Outcome(PetstoreHandler(a1, a2, returnUndefined), GetRequest("/not-found", "")) ==
        if returnUndefined then None else Some(NotFound())
  {
    var req := GetRequest("/not-found", "");
    Pieces1("/not-found", "not-found");
    PetEntries(a1, a2);
    var h := PetstoreHandler(a1, a2, returnUndefined);
    OutcomeOfTwo(h, req);
  }

  /** `ResolvedMatches` with the base pieces given directly. */
  lemma BaseMatch(d: Declaration, base: seq<string>, pieces: seq<string>)
    ensures Matched(Resolve(d, base).segments, pieces) ==
      if |pieces| >= |base| && pieces[..|base|] == base then Matched(ParsePathTemplate(d.path), pieces[|base|..]) else None
  {
    MatchedLiteralPrefix(base, ParsePathTemplate(d.path), pieces);
  }

  /** The pieces of the base URL and of the two requests behind it. */
  lemma ApiPieces()
    ensures PathPieces("/api") == ["api"]
    ensures PathPieces("/api/pet/42") == ["api", "pet", "42"]
    ensures PathPieces("/pet/42") == ["pet", "42"]
  {
    ApiPiece();
    ApiPet42Pieces();
    Pet42Pieces();
  }

  lemma ApiPiece()
    ensures PathPieces("/api") == ["api"]
  {
    Pieces1("/api", "api");
  }

  lemma ApiPet42Pieces()
    ensures PathPieces("/api/pet/42") == ["api", "pet", "42"]
  {
    Pieces3("/api/pet/42", "api", "pet", "42");
  }

  lemma Pet42Pieces()
    ensures PathPieces("/pet/42") == ["pet", "42"]
  {
    Pieces2("/pet/42", "pet", "42");
  }

  /** Behind the base URL `/api`, `/api/pet/42` binds `petId` and `/pet/42` no longer matches. */
  lemma BehindBaseUrl(a1: Action)
    ensures BaseUrlPathSegments(Some("/api")) == ["api"]
    ensures Matched(Resolve(GetPet(a1), ["api"]).segments, PathPieces("/api/pet/42")) == Some(map["petId" := "42"])
    ensures Matched(Resolve(GetPet(a1), ["api"]).segments, PathPieces("/pet/42")).None?
  {
    PetIdTemplate();
    ApiPieces();
    BaseMatch(GetPet(a1), ["api"], ["api", "pet", "42"]);
    BaseMatch(GetPet(a1), ["api"], ["pet", "42"]);
    assert ["api", "pet", "42"][..1] == ["api"] && ["api", "pet", "42"][1..] == ["pet", "42"];
    assert ["pet", "42"][..1] == ["pet"];
    MatchLiteralParam("pet", "petId", "pet", "42");
  }

  /** `{x}/w` precedes `v/{y}`: one literal each, and the parameter comes first at position 0. */
  lemma ParamBeforeLiteral(x: string, w: string, v: string, y: string)
    ensures Precedes([Param(x, Simple, false), Literal(w)], [Literal(v), Param(y, Simple, false)])
  {
    var k1 := Kinds([Param(x, Simple, false), Literal(w)]);
    var k2 := Kinds([Literal(v), Param(y, Simple, false)]);
    assert k1 == [false, true] && k2 == [true, false];
    assert k1[1..] == [true] && k2[1..] == [false] && k1[1..][1..] == [] && k2[1..][1..] == [];
    assert Count(k1[1..]) == 1 && Count(k2[1..]) == 0;
    assert Count(k1) == 1 && Count(k2) == 1;
    assert ParamFirst(k1, k2);
  }

  /**
   * At equal length and literal count, the entry with the parameter at the
   * first differing position is tried first: `/{kind}/list` goes before
   * `/pets/{id}`, although the source comment says literals come first.
   */
  lemma ParameterFirstAsWritten()
    ensures Precedes(ParsePathTemplate("/{kind}/list"), ParsePathTemplate("/pets/{id}"))
  {
    KindListTemplate();
    PetsIdTemplate();
    ParamBeforeLiteral("kind", "list", "pets", "id");
  }
}
