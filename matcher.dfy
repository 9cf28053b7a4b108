/**
 * The path matcher (`matchPath`): a request path matches a segment list
 * when it has as many non-empty pieces and every literal equals its piece;
 * the parameters then bind the raw pieces at their positions.
 */
module Matcher {
  import opened Wrappers
  import opened Strings
  import opened Template

  /** The matched path parameters: a null-prototype dictionary from name to raw piece. */
  type Params = map<string, string>

  /** The names of all parameter segments. */
  function ParamNames(segs: seq<Segment>): set<string>
  {
    set i | 0 <= i < |segs| && segs[i].Param? :: segs[i].name
  }

  /** Position `i` holds a parameter whose name no later parameter repeats. */
  predicate LastOfName(segs: seq<Segment>, i: int)
    requires 0 <= i < |segs|
  {
    segs[i].Param? && forall j :: i < j < |segs| && segs[j].Param? ==> segs[j].name != segs[i].name
  }

  /** Every literal segment equals the piece at its position. */
  predicate LiteralsAgree(segs: seq<Segment>, pieces: seq<string>)
    requires |segs| == |pieces|
  {
    forall i :: 0 <= i < |segs| && segs[i].Literal? ==> segs[i].text == pieces[i]
  }

  /** The bindings made by visiting the segments from left to right, later ones overwriting. */
  function Bind(segs: seq<Segment>, pieces: seq<string>): Params
    requires |segs| == |pieces|
    decreases |segs|
  {
    if |segs| == 0 then map[]
    else
      var n := |segs| - 1;
      var init := Bind(segs[..n], pieces[..n]);
      if segs[n].Param? then init[segs[n].name := pieces[n]] else init
  }

  /**
   * The keys of the bindings are exactly the parameter names, and each name
   * holds the piece at the last position that names it.
   */
  lemma {:induction false} BindSpec(segs: seq<Segment>, pieces: seq<string>)
    requires |segs| == |pieces|
    ensures Bind(segs, pieces).Keys == ParamNames(segs)
    ensures forall i :: 0 <= i < |segs| && LastOfName(segs, i) ==>
      segs[i].name in Bind(segs, pieces) && Bind(segs, pieces)[segs[i].name] == pieces[i]
    decreases |segs|
  {
    if |segs| > 0 {
      var n := |segs| - 1;
      var s', p' := segs[..n], pieces[..n];
      BindSpec(s', p');
      var init := Bind(s', p');
      var m := Bind(segs, pieces);
      assert forall i :: 0 <= i < n ==> s'[i] == segs[i];
      var extra: set<string> := if segs[n].Param? then {segs[n].name} else {};
      assert ParamNames(segs) == ParamNames(s') + extra by {
        forall k | k in ParamNames(segs) ensures k in ParamNames(s') + extra {
          var i :| 0 <= i < |segs| && segs[i].Param? && segs[i].name == k;
          if i < n {
            assert s'[i].Param? && s'[i].name == k;
          }
        }
        forall k | k in ParamNames(s') ensures k in ParamNames(segs) {
          var i :| 0 <= i < n && s'[i].Param? && s'[i].name == k;
          assert segs[i].Param? && segs[i].name == k;
        }
      }
      forall i | 0 <= i < |segs| && LastOfName(segs, i)
        ensures segs[i].name in m && m[segs[i].name] == pieces[i]
      {
        if i < n {
          assert LastOfName(s', i);
          assert p'[i] == pieces[i];
        }
      }
    }
  }

  /** The outcome of matching pieces against segments: `None` stands for `undefined`. */
  function Matched(segs: seq<Segment>, pieces: seq<string>): Option<Params>
  {
    if |pieces| != |segs| || !LiteralsAgree(segs, pieces) then None else Some(Bind(segs, pieces))
  }

  /**
   * `matchPath`: fill the null-prototype dictionary segment by segment and
   * give up at the first literal that differs from its piece. Pieces are
   * compared and bound raw, with no percent-decoding.
   */
  method MatchPath(requestPath: string, segments: seq<Segment>) returns (r: Option<Params>)
    ensures r == Matched(segments, PathPieces(requestPath))
  {
    var requestSegments := PathPieces(requestPath);
    if |requestSegments| != |segments| {
      return None;
    }
    var params: Params := map[];
    for i := 0 to |segments|
      invariant params == Bind(segments[..i], requestSegments[..i])
      invariant LiteralsAgree(segments[..i], requestSegments[..i])
    {
      var segment := segments[i];
      var requestSegment := requestSegments[i];
      assert segments[..i + 1][..i] == segments[..i];
      assert requestSegments[..i + 1][..i] == requestSegments[..i];
      if segment.Literal? {
        if segment.text != requestSegment {
          return None;
        }
      } else {
        params := params[segment.name := requestSegment];
      }
    }
    assert segments[..|segments|] == segments;
    assert requestSegments[..|segments|] == requestSegments;
    return Some(params);
  }

  /** A match fails exactly for a piece count that differs or for a literal that differs. */
  lemma MatchedFails(segs: seq<Segment>, pieces: seq<string>)
    ensures Matched(segs, pieces).None? <==>
      (|pieces| != |segs| || exists i :: 0 <= i < |segs| && segs[i].Literal? && segs[i].text != pieces[i])
  {
  }

  /** A template with no parameters binds nothing when it matches. */
  lemma MatchedNoParams(segs: seq<Segment>, pieces: seq<string>)
    requires forall i :: 0 <= i < |segs| ==> segs[i].Literal?
    requires Matched(segs, pieces).Some?
    ensures Matched(segs, pieces).value == map[]
  {
    BindSpec(segs, pieces);
    assert ParamNames(segs) == {};
  }

  /** Two dictionaries with the keys and the last-position values of the same segments are equal. */
  lemma BindEqual(segs: seq<Segment>, pieces: seq<string>, m: Params)
    requires |segs| == |pieces|
    requires m.Keys == ParamNames(segs)
    requires forall i :: 0 <= i < |segs| && LastOfName(segs, i) ==> segs[i].name in m && m[segs[i].name] == pieces[i]
    ensures Bind(segs, pieces) == m
  {
    BindSpec(segs, pieces);
    var b := Bind(segs, pieces);
    forall k | k in m
      ensures b[k] == m[k]
    {
      var i :| 0 <= i < |segs| && segs[i].Param? && segs[i].name == k;
      var j := LastIndexOf(segs, k, i);
    }
  }

  /** The last position that names `k`, found by searching right from a position that does. */
  function LastIndexOf(segs: seq<Segment>, k: string, i: nat): (j: nat)
    requires i < |segs| && segs[i].Param? && segs[i].name == k
    ensures i <= j < |segs| && segs[j].Param? && segs[j].name == k && LastOfName(segs, j)
    decreases |segs| - i
  {
    if exists j :: i < j < |segs| && segs[j].Param? && segs[j].name == k then
      var j :| i < j < |segs| && segs[j].Param? && segs[j].name == k;
      LastIndexOf(segs, k, j)
    else i
  }

  /** Literals in front agree exactly when the request starts with them and the rest agrees. */
  lemma LiteralPrefixAgrees(base: seq<string>, t: seq<Segment>, pieces: seq<string>)
    requires |pieces| == |base| + |t|
    ensures LiteralsAgree(Literals(base) + t, pieces) <==>
      pieces[..|base|] == base && LiteralsAgree(t, pieces[|base|..])
  {
    var segs := Literals(base) + t;
    var n := |base|;
    var rest := pieces[n..];
    if LiteralsAgree(segs, pieces) {
      forall i | 0 <= i < n ensures pieces[..n][i] == base[i] {
        assert segs[i] == Literal(base[i]);
      }
      forall i | 0 <= i < |t| && t[i].Literal? ensures t[i].text == rest[i] {
        assert segs[n + i] == t[i];
      }
    }
    if pieces[..n] == base && LiteralsAgree(t, rest) {
      forall i | 0 <= i < |segs| && segs[i].Literal?
        ensures segs[i].text == pieces[i]
      {
        if i >= n {
          assert segs[i] == t[i - n];
          assert rest[i - n] == pieces[i];
        } else {
          assert segs[i] == Literal(base[i]);
          assert pieces[..n][i] == pieces[i];
        }
      }
    }
  }

  /** Literals in front bind nothing: the bindings are those of the rest. */
  lemma LiteralPrefixBinds(base: seq<string>, t: seq<Segment>, pieces: seq<string>)
    requires |pieces| == |base| + |t|
    ensures Bind(Literals(base) + t, pieces) == Bind(t, pieces[|base|..])
  {
    var segs := Literals(base) + t;
    var n := |base|;
    var rest := pieces[n..];
    var m := Bind(t, rest);
    BindSpec(t, rest);
    assert forall i :: 0 <= i < n ==> segs[i] == Literal(base[i]);
    assert forall i :: 0 <= i < |t| ==> segs[n + i] == t[i];
    assert ParamNames(segs) == ParamNames(t) by {
      forall k | k in ParamNames(segs) ensures k in ParamNames(t) {
        var i :| 0 <= i < |segs| && segs[i].Param? && segs[i].name == k;
        assert segs[i] == t[i - n];
      }
      forall k | k in ParamNames(t) ensures k in ParamNames(segs) {
        var i :| 0 <= i < |t| && t[i].Param? && t[i].name == k;
        assert segs[n + i] == t[i];
      }
    }
    forall i | 0 <= i < |segs| && LastOfName(segs, i)
      ensures segs[i].name in m && m[segs[i].name] == pieces[i]
    {
      assert segs[i] == t[i - n];
      assert LastOfName(t, i - n) by {
        forall j | i - n < j < |t| && t[j].Param?
          ensures t[j].name != t[i - n].name
        {
          assert segs[n + j] == t[j];
        }
      }
      assert rest[i - n] == pieces[i];
    }
    BindEqual(segs, pieces, m);
  }

  /**
   * Literal segments in front of a template act as a required prefix: the
   * request must start with exactly those pieces and the rest must match the
   * template on its own, with the same bindings.
   */
  lemma MatchedLiteralPrefix(base: seq<string>, t: seq<Segment>, pieces: seq<string>)
    ensures Matched(Literals(base) + t, pieces) ==
      if |pieces| >= |base| && pieces[..|base|] == base then Matched(t, pieces[|base|..]) else None
  {
    if |pieces| == |base| + |t| {
      LiteralPrefixAgrees(base, t, pieces);
      LiteralPrefixBinds(base, t, pieces);
    }
  }

  /** Raw pieces of a base path as literal segments. */
  function Literals(pieces: seq<string>): (segs: seq<Segment>)
    ensures |segs| == |pieces|
    ensures forall i :: 0 <= i < |segs| ==> segs[i] == Literal(pieces[i])
  {
    seq(|pieces|, i requires 0 <= i < |pieces| => Literal(pieces[i]))
  }
}
