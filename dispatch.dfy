/**
 * The dispatcher (`createHandler` and the handler it returns): the
 * declarations are resolved against the base URL, sorted once by
 * specificity, and every request is offered to the entries in that order
 * until one answers; if none does, the not-found policy applies.
 */
module Dispatch {
  import opened Wrappers
  import opened Strings
  import opened Template
  import opened Matcher
  import opened Specificity
  import opened Routes
  import opened Sorting

  /** The handler options: an optional base URL and the not-found policy, `false` when absent. */
  datatype HandlerOptions = HandlerOptions(baseUrl: Option<string>, returnUndefined: bool)

  /** What the returned handler closes over: the sorted entries and the not-found policy. */
  datatype Handler = Handler(entries: seq<Entry>, returnUndefined: bool)

  /** The fallback response (src/index.ts:165): status 404 with the body "Not Found". */
  function NotFound(): Response
  {
    Response(404, "Not Found")
  }

  /** Entry `i` is the first whose handler gives a result other than `undefined`. */
  predicate AnswersFirst(t: seq<Entry>, req: Request, i: int)
  {
    && 0 <= i < |t|
    && Respond(t[i], req).Some?
    && forall j :: 0 <= j < i ==> Respond(t[j], req).None?
  }

  /** The first result other than `undefined`, trying the entries in order. */
  function FirstResponse(t: seq<Entry>, req: Request): Option<Response>
    decreases |t|
  {
    if |t| == 0 then None
    else match Respond(t[0], req)
      case Some(r) => Some(r)
      case None => FirstResponse(t[1..], req)
  }

  /** At most one entry answers first. */
  lemma AnswersFirstUnique(t: seq<Entry>, req: Request, i: int)
    requires AnswersFirst(t, req, i)
    ensures forall j :: AnswersFirst(t, req, j) ==> j == i
  {
  }

  /** `FirstResponse` is the answer of the first entry that answers, and `undefined` when none does. */
  lemma {:induction false} FirstResponseSpec(t: seq<Entry>, req: Request)
    ensures FirstResponse(t, req).None? <==> forall i :: 0 <= i < |t| ==> Respond(t[i], req).None?
    ensures forall i :: AnswersFirst(t, req, i) ==> FirstResponse(t, req) == Respond(t[i], req)
    decreases |t|
  {
    if |t| > 0 {
      FirstResponseSpec(t[1..], req);
      assert forall i :: 0 <= i < |t| - 1 ==> t[1..][i] == t[i + 1];
      forall i | AnswersFirst(t, req, i)
        ensures FirstResponse(t, req) == Respond(t[i], req)
      {
        if i > 0 {
          assert AnswersFirst(t[1..], req, i - 1);
        }
      }
      if Respond(t[0], req).None? && forall i :: 0 <= i < |t| - 1 ==> Respond(t[1..][i], req).None? {
        assert forall i :: 0 <= i < |t| ==> Respond(t[i], req).None? by {
          forall i | 0 <= i < |t| ensures Respond(t[i], req).None? {
            if i > 0 {
              assert t[1..][i - 1] == t[i];
            }
          }
        }
      }
    }
  }

  /** The handler's whole answer: the first entry's answer, else `undefined` or 404 as configured. */
  function Outcome(h: Handler, req: Request): Option<Response>
  {
    match FirstResponse(h.entries, req)
    case Some(r) => Some(r)
    case None => if h.returnUndefined then None else Some(NotFound())
  }

  /** Every declaration resolved against the same base pieces, in declaration order (src/index.ts:155-156). */
  function ResolveAll(decls: seq<Declaration>, base: seq<string>): (t: seq<Entry>)
    ensures |t| == |decls|
    ensures forall i :: 0 <= i < |decls| ==> t[i] == Resolve(decls[i], base)
  {
    seq(|decls|, i requires 0 <= i < |decls| => Resolve(decls[i], base))
  }

  /**
   * `createHandler`: resolve every declaration against the base URL, then
   * sort the entries in place. The table is ordered by specificity, holds
   * exactly the resolved entries, and keeps tied entries in declaration order.
   */
  method CreateHandler(decls: seq<Declaration>, options: HandlerOptions) returns (h: Handler)
    ensures h.entries == Sort(ResolveAll(decls, BaseUrlPathSegments(options.baseUrl)))
    ensures Sorted(h.entries)
    ensures multiset(h.entries) == multiset(ResolveAll(decls, BaseUrlPathSegments(options.baseUrl)))
    ensures forall k :: Filter(h.entries, k) == Filter(ResolveAll(decls, BaseUrlPathSegments(options.baseUrl)), k)
    ensures h.returnUndefined == options.returnUndefined
  {
    var resolvedOptions := BaseUrlPathSegments(options.baseUrl);
    var entries := new Entry[|decls|](i requires 0 <= i < |decls| => Resolve(decls[i], resolvedOptions));
    assert entries[..] == ResolveAll(decls, resolvedOptions);
    SortEntries(entries);
    SortIsStableSort(ResolveAll(decls, resolvedOptions));
    h := Handler(entries[..], options.returnUndefined);
  }

  /**
   * The handler's answer: the first answering entry's answer, and
   * `undefined` or 404 when no entry answers.
   */
  lemma DispatchSpec(h: Handler, req: Request)
    ensures forall i :: AnswersFirst(h.entries, req, i) ==> Outcome(h, req) == Respond(h.entries[i], req)
    ensures (forall i :: 0 <= i < |h.entries| ==> Respond(h.entries[i], req).None?) ==>
      Outcome(h, req) == (if h.returnUndefined then None else Some(NotFound()))
  {
    FirstResponseSpec(h.entries, req);
  }

  /**
   * The returned handler: offer the request to each entry in table order and
   * return the first result other than `undefined`; when there is none,
   * return `undefined` if `returnUndefined` is set and 404 "Not Found"
   * otherwise. `consulted` counts the entries whose handler ran (no entry
   * after the answering one runs), and `invoked` lists those whose user
   * handler ran: exactly the consulted entries whose method and path matched.
   */
  method Serve(h: Handler, req: Request) returns (r: Option<Response>, ghost consulted: nat, ghost invoked: seq<nat>)
    ensures r == Outcome(h, req)
    ensures consulted <= |h.entries|
    ensures forall i :: AnswersFirst(h.entries, req, i) ==> consulted == i + 1
    ensures (forall i :: 0 <= i < |h.entries| ==> Respond(h.entries[i], req).None?) ==> consulted == |h.entries|
    ensures forall k: nat :: k in invoked <==> k < consulted && Admits(h.entries[k], req)
  {
    consulted, invoked := 0, [];
    for i := 0 to |h.entries|
      invariant consulted == i
      invariant FirstResponse(h.entries, req) == FirstResponse(h.entries[i..], req)
      invariant forall j :: 0 <= j < i ==> Respond(h.entries[j], req).None?
      invariant forall k: nat :: k in invoked <==> k < i && Admits(h.entries[k], req)
    {
      var response;
      ghost var called;
      response, called := HandleEntry(h.entries[i], req);
      if called {
        invoked := invoked + [i];
      }
      consulted := i + 1;
      assert h.entries[i..][1..] == h.entries[i + 1..];
      if response.Some? {
        AnswersFirstUnique(h.entries, req, i);
        return response, consulted, invoked;
      }
    }
    if h.returnUndefined {
      return None, consulted, invoked;
    }
    return Some(NotFound()), consulted, invoked;
  }

  /** In the sorted table, longer entries come first, and at equal length those with more literals. */
  lemma SortedTableSpecificity(t: seq<Entry>, i: int, j: int)
    requires Sorted(t)
    requires 0 <= i < j < |t|
    ensures |t[i].segments| >= |t[j].segments|
    ensures |t[i].segments| == |t[j].segments| ==> LiteralCount(t[i].segments) >= LiteralCount(t[j].segments)
  {
    assert !Precedes(t[j].segments, t[i].segments);
  }
}
