# openapi-ts-server routing core in Dafny

This project models the runtime routing engine of `openapi-ts-server`
(`src/index.ts`) and proves properties of that model. The engine has five
parts:

- **Template parser** (`parsePathTemplate`). A path template is cut on `/`.
  Empty pieces are dropped. Each piece becomes a literal, or a parameter
  record `{name, type, explode}` when it matches `^{(|\.|;)(.+?)(\*)?}$`.
- **Entry builder** (the closures of `getCreateEntry`). The base-URL pieces,
  always literals, go in front of the parsed template. The entry's handler
  answers `undefined` unless the lower-cased request method is the entry's
  method and `matchPath` succeeds. Otherwise it returns what the user handler
  returns.
- **Specificity comparator** (`compareByPathSegments`). Longer segment lists
  go first, then lists with more literals. After that comes the first position
  where the kinds differ.
- **Path matcher** (`matchPath`). The request path is cut the same way. It
  must have as many pieces as the template, and every literal must equal its
  piece. Parameters bind the raw pieces, and a later position overwrites an
  earlier one of the same name.
- **Dispatcher** (`createHandler`). Entries are sorted once with a stable
  sort. Each request goes to the entries in that order, and the first result
  other than `undefined` is returned. When no entry answers, the result is a
  404 "Not Found" response, or `undefined` when `returnUndefined` is set.

Modules, one per file:

- `Wrappers`: the `Option` type, where `None` stands for `undefined`.
- `Strings`: JavaScript `split`, `filter(Boolean)` and ASCII `toLowerCase`.
- `Template`: the parser.
- `Matcher`: the matcher.
- `Specificity`: the comparator.
- `Routes`: entries, requests and the per-entry handler.
- `Sorting`: the sort.
- `Dispatch`: `createHandler` and the handler it returns.
- `Petstore`: the repository's own petstore test scenario.

`matchPath`, the in-place sort and the dispatch loop are imperative methods
with loop invariants. Each is proved equal to a specification function:
`Matched`, `Sort` and `Outcome`. Lemmas then prove the promised properties
of those functions.

A request is its method, its URL pathname and its query string. The
pathname and query are taken as already extracted from the URL. A user
handler is an arbitrary total function from the request and the path
parameters to an optional response, where `None` stands for `undefined`.

### The code as written, where it surprises

The model follows the code in each of these cases:

- **Tie-break at the first differing position.** The comment on
  `src/index.ts:262` says string (literal) segments come first. The code
  returns `1` ("`a` after `b`") when `a` holds the literal, so the
  *parameter* goes first. `Petstore.ParameterFirstAsWritten` shows this on
  `/{kind}/list` against `/pets/{id}`.
- **Parameter style.** The empty alternative of `(|\.|;)` is tried first, and
  the lazy `(.+?)` can take a leading `.` or `;`. So every match has an empty
  prefix and its `type` is `"simple"`. `{.x}` gives the name `.x`, and
  `{}` stays a literal.
- **Line terminators.** The regex `.` does not match `\n`, `\r`, U+2028 or
  U+2029. A braced piece whose inner text contains one of them stays a
  literal.
- **Percent-decoding.** No piece is ever decoded. Literals are compared with
  the raw pathname pieces, and parameters bind them raw.

## Model

| member | source | states |
|---|---|---|
| Strings.PathPiecesSlashInsensitive | src/index.ts:235-237 | Leading, trailing and doubled slashes do not change the pieces of a path |
| Strings.PathPiecesAround | src/index.ts:272 | The pieces of `a/b` are the pieces of `a` followed by those of `b` |
| Strings.JoinSplit | src/index.ts:235-236 | `split` loses nothing: joining its pieces with the separator gives back the input |
| Strings.PathPiecesJoin | src/index.ts:235-237 | Non-empty, slash-free pieces joined by `/` split back into exactly those pieces |
| Strings.PathPiecesAbsolute | src/index.ts:272 | An absolute path built from non-empty, slash-free pieces has exactly those pieces |
| Template.CandidateBraced | src/index.ts:239 | Any way the regex can match the whole piece needs a braced piece with no line terminator inside, and its groups spell the inner text |
| Template.FirstCaptureIsFirst | src/index.ts:239 | On a braced piece, the closed-form capture is a match and no match comes earlier in backtracking order |
| Template.MatchBraces | src/index.ts:239 | No match exactly when no way to match exists; otherwise the match is the first in backtracking order, and group 1 is always empty |
| Template.ParseSegment | src/index.ts:238-246 | Parameter exactly when braced; a literal keeps the piece verbatim; `type` is always simple; `explode` holds iff the inner text has at least 2 characters and ends in `*`; the name is the inner text less that star |
| Template.ParseSegmentRenders | src/index.ts:238-246 | Each non-empty piece parses to a well-formed segment that renders back to the same piece |
| Template.RenderSegmentParses | src/index.ts:238-246 | Parsing is the inverse of rendering on well-formed segments |
| Template.ParsePathTemplate | src/index.ts:234-248 | One segment per non-empty `/`-piece, none empty, each well-formed and rendering back to its piece |
| Template.ParseRenderTemplate | src/index.ts:234-248 | Parsing normalises a template, and parsing the normal form again gives the same segments |
| Template.RenderTemplateParses | src/index.ts:234-248 | Well-formed, slash-free segments rendered and joined parse back to themselves |
| Matcher.BindSpec | src/index.ts:275-286 | The bound names are exactly the parameter names, and each holds the piece at the last position that names it |
| Matcher.MatchPath | src/index.ts:268-287 | The loop with early returns computes `Matched`: `undefined` for a length mismatch or the first differing literal, else the bindings |
| Matcher.MatchedFails | src/index.ts:273-281 | A match fails exactly when the piece count differs or some literal differs from its piece |
| Matcher.MatchedNoParams | src/index.ts:275-286 | A template without parameters yields the empty dictionary when it matches |
| Matcher.BindEqual | src/index.ts:275-286 | Any dictionary with the parameter names as keys and the last-position pieces as values is the bindings |
| Matcher.MatchedLiteralPrefix | src/index.ts:194-197 | Literal segments in front require the request to start with exactly those pieces, and the rest matches the remaining template with the same bindings |
| Specificity.ParamFirstAt | src/index.ts:258-264 | The recursive tie-break holds exactly when the first position where the kind vectors differ has the parameter in the first list |
| Specificity.PrecedesIrreflexive | src/index.ts:250-266 | Lists with equal kind vectors are not ordered |
| Specificity.PrecedesAsymmetric | src/index.ts:250-266 | The order is asymmetric |
| Specificity.PrecedesTransitive | src/index.ts:250-266 | The order is transitive |
| Specificity.PrecedesTrichotomy | src/index.ts:250-266 | Exactly one holds: `a` first, a tie (equal kind vectors) or `b` first |
| Specificity.PrecedesSplit | src/index.ts:250-266 | If `a` goes before `c`, then every `b` goes after `a` or before `c` |
| Specificity.CompareByPathSegments | src/index.ts:250-266 | The length difference when lengths differ, then the literal-count difference, then -1/0/1; negative iff `a` precedes, positive iff `b` precedes, zero iff the kind vectors are equal |
| Routes.BaseUrlPathSegments | src/index.ts:150 | No base URL gives no pieces; every piece is non-empty and free of `/`, and they are the `/`-pieces of the base URL |
| Routes.BaseUrlRoundTrip | src/index.ts:150 | Any list of non-empty, slash-free pieces written as `/` plus the pieces joined by `/` is a base URL with exactly those pieces |
| Routes.BaseUrlPiecesRejoin | src/index.ts:150 | Joining the base-URL pieces with `/` and cutting again gives the same pieces |
| Routes.Resolve | src/index.ts:193-197 | The entry keeps the method and handler; its segments are the base pieces as literals followed by the parsed template |
| Routes.HandleEntry | src/index.ts:200-225 | `undefined` without running the user handler on a method or path mismatch; otherwise the user handler's answer for the matched parameters |
| Routes.ResolvedMatches | src/index.ts:194-204 | Behind a base URL, a path matches an entry exactly when it starts with the base pieces and the rest matches the template alone |
| Sorting.InsertPermutes | src/index.ts:157 | An insertion step adds exactly the inserted entry |
| Sorting.InsertKeepsSorted | src/index.ts:157 | An insertion step keeps the table ordered |
| Sorting.InsertFilters | src/index.ts:157 | An insertion step puts the new entry after the entries already in its tie class |
| Sorting.SortIsStableSort | src/index.ts:155-157 | The sorted table is ordered by specificity, is a permutation of the input, and keeps every tie class in declaration order |
| Sorting.StableSortUnique | src/index.ts:157 | Two ordered tables with the same tie classes in the same order are equal, so every stable sort gives the same table |
| Sorting.InsertAt | src/index.ts:157 | Shifting an entry left in place turns the array's prefix into the prefix with that entry inserted |
| Sorting.SortEntries | src/index.ts:157 | The in-place sort leaves the array equal to the stable sort of its old contents |
| Dispatch.AnswersFirstUnique | src/index.ts:159-161 | At most one entry is the first to answer |
| Dispatch.FirstResponseSpec | src/index.ts:159-162 | No answer exactly when every entry answers `undefined`; otherwise the answer of the first entry that answers |
| Dispatch.DispatchSpec | src/index.ts:158-166 | The handler's result is the first answering entry's answer, and `undefined` or 404 "Not Found" (per `returnUndefined`) when no entry answers |
| Dispatch.CreateHandler | src/index.ts:149-157 | The table is the stable sort of the resolved entries: ordered, a permutation in which each tie class keeps its order, with the not-found policy kept |
| Dispatch.Serve | src/index.ts:158-166 | The loop returns the handler's result; it stops at the first answering entry, runs every entry when none answers, and runs the user handler exactly for the entries it reached that match |
| Dispatch.SortedTableSpecificity | src/index.ts:253-257 | In the sorted table, longer entries come first, and at equal length entries with more literals |
| Petstore.PetstoreTable | tests/petstore.test.ts:12-27 | `/pet/findByStatus` goes before `/pet/{petId}` although it is declared after it |
| Petstore.PetById | tests/petstore.test.ts:28-33 | `/pet/123` reaches only the `{petId}` route, with `petId = "123"` |
| Petstore.PetByStatus | tests/petstore.test.ts:35-44 | `/pet/findByStatus` reaches the literal route first with no path parameters, and the parameter route only if that route declines |
| Petstore.NotFoundPath | tests/petstore.test.ts:46-49 | `/not-found` gives 404 "Not Found", or `undefined` when `returnUndefined` is set |
| Petstore.BehindBaseUrl | src/index.ts:150-151 | With base URL `/api`, `/api/pet/42` binds `petId = "42"` and `/pet/42` no longer matches |
| Petstore.ParameterFirstAsWritten | src/index.ts:261-263 | At equal length and literal count, the entry with the parameter at the first differing position is tried first |

## Left out

- Type-level machinery (`src/index.ts:3-88`). These are compile-time TypeScript types with no runtime behaviour.
- `jsonResponse` and `delay` (`src/index.ts:289-303`). They wrap `JSON.stringify` with `Response`, and `setTimeout`. A response is just a status and a body, and headers are not modelled.
- URL parsing (`new URL`, `pathname`, `searchParams`). The pathname is an input, and the query string is carried unexamined. The handler context's `params.query`, `jsonResponse` and `delay` are not passed to the user handler.
- `async`/`await`. Dispatch is sequential. User handlers are total functions with no side effects, so an exception that propagates out of a handler is not modelled.
- The frozen `context` object and `createContext` (`src/index.ts:74-83`, `183-187`). They only hand out the per-method builders, and a `Declaration` stands for what a builder returns. The generator-function versus array form of the `createHandler` input is not modelled: the input is the list of declarations.
- Strings.Lower: lower-cases only the ASCII letters, not all of Unicode, because full `toLowerCase` is a platform table. The eight method names are lower-case ASCII, so an entry's method check is decided the same way.
- Sorting.SortEntries: V8's sort algorithm itself is not modelled; an insertion sort stands in for it. `Sorting.StableSortUnique` proves that every stable sort with this comparator gives the same table.
- Routes.HandleEntry: performs no URL parsing. The request arrives with its pathname already extracted.
