/**
 * The path template parser (`parsePathTemplate`): a template is cut into its
 * non-empty `/`-pieces and each piece becomes a literal or a parameter,
 * depending on the regular expression `^{(|\.|;)(.+?)(\*)?}$`.
 */
module Template {
  import opened Wrappers
  import opened Strings

  /** The three binding styles a parameter record can carry. */
  datatype Style = Simple | Label | Matrix

  /** A template segment: a literal piece, or a parameter record `{name, type, explode}`. */
  datatype Segment = Literal(text: string) | Param(name: string, style: Style, explode: bool)

  /** What the three capture groups of the brace regex hold after a match. */
  datatype Capture = Capture(prefix: string, name: string, star: bool)

  /** The characters that `.` does not match in a JavaScript regex without the `s` flag. */
  predicate IsLineTerminator(c: char)
  {
    c == '\n' || c == '\r' || c == '\U{2028}' || c == '\U{2029}'
  }

  predicate NoLineTerminator(s: string)
  {
    forall i :: 0 <= i < |s| ==> !IsLineTerminator(s[i])
  }

  /** The text between the outer braces of a piece. */
  function Inner(piece: string): string
    requires |piece| >= 2
  {
    piece[1..|piece| - 1]
  }

  /** The piece is `{`, one or more regex-matchable characters, `}`. */
  predicate Braced(piece: string)
  {
    |piece| >= 3 && piece[0] == '{' && piece[|piece| - 1] == '}' && NoLineTerminator(Inner(piece))
  }

  /** The index of a prefix among the alternatives of group 1, in the order the engine tries them. */
  function AltIndex(prefix: string): nat
  {
    if prefix == "" then 0 else if prefix == "." then 1 else 2
  }

  function StarText(star: bool): string
  {
    if star then "*" else ""
  }

  /**
   * One way the regex can match the whole piece: group 1 is one of its three
   * alternatives, group 2 is one or more characters other than line
   * terminators, group 3 is absent or `*`.
   */
  ghost predicate Candidate(piece: string, c: Capture)
  {
    && (c.prefix == "" || c.prefix == "." || c.prefix == ";")
    && |c.name| >= 1
    && NoLineTerminator(c.name)
    && piece == "{" + c.prefix + c.name + StarText(c.star) + "}"
  }

  /**
   * The backtracking order of the engine: group 1's alternatives from left
   * to right, then the lazy group 2 from shorter to longer, then the greedy
   * optional group 3 with `*` before the empty match.
   */
  ghost predicate TriedBefore(c: Capture, d: Capture)
  {
    || AltIndex(c.prefix) < AltIndex(d.prefix)
    || (AltIndex(c.prefix) == AltIndex(d.prefix) && |c.name| < |d.name|)
    || (AltIndex(c.prefix) == AltIndex(d.prefix) && |c.name| == |d.name| && c.star && !d.star)
  }

  /** The match the engine settles on for a braced piece, in closed form. */
  function FirstCapture(piece: string): Capture
    requires Braced(piece)
  {
    var x := Inner(piece);
    if |x| >= 2 && x[|x| - 1] == '*' then Capture("", x[..|x| - 1], true)
    else Capture("", x, false)
  }

  /** Only a braced piece has a candidate, and the candidate's groups make up its inner text. */
  lemma CandidateBraced(piece: string, c: Capture)
    ensures Candidate(piece, c) ==> Braced(piece) && Inner(piece) == c.prefix + c.name + StarText(c.star)
  {
    if !Candidate(piece, c) {
      return;
    }
    var inner := c.prefix + c.name + StarText(c.star);
    assert piece == "{" + inner + "}";
    assert Inner(piece) == inner;
    forall i | 0 <= i < |inner|
      ensures !IsLineTerminator(inner[i])
    {
      if i < |c.prefix| {
        assert inner[i] == c.prefix[i];
      } else if i < |c.prefix| + |c.name| {
        assert inner[i] == c.name[i - |c.prefix|];
      } else {
        assert inner[i] == StarText(c.star)[i - |c.prefix| - |c.name|];
      }
    }
  }

  /** On a braced piece the closed form is a candidate and no candidate is tried before it. */
  lemma FirstCaptureIsFirst(piece: string)
    requires Braced(piece)
    ensures Candidate(piece, FirstCapture(piece))
    ensures forall c :: Candidate(piece, c) ==> !TriedBefore(c, FirstCapture(piece))
  {
    var x := Inner(piece);
    var m := FirstCapture(piece);
    assert piece == "{" + x + "}";
    if m.star {
      assert x == m.name + "*";
    } else {
      assert x == m.name;
    }
    assert piece == "{" + m.prefix + m.name + StarText(m.star) + "}";
    forall c | Candidate(piece, c)
      ensures !TriedBefore(c, m)
    {
      CandidateBraced(piece, c);
      if c.prefix == "" {
        assert x == c.name + StarText(c.star);
        if c.star {
          assert |x| >= 2 && x[|x| - 1] == '*';
          assert m.star && |c.name| == |m.name|;
        } else {
          assert c.name == x;
        }
      }
    }
  }

  /**
   * `segment.match(/^{(|\.|;)(.+?)(\*)?}$/)`. The result is the first
   * candidate in backtracking order, and there is none exactly when no
   * candidate exists. Because the empty alternative always comes first,
   * group 1 is always empty.
   */
  function MatchBraces(piece: string): (r: Option<Capture>)
    ensures r.None? <==> forall c :: !Candidate(piece, c)
    ensures r.Some? ==> Candidate(piece, r.value)
    ensures r.Some? ==> forall c :: Candidate(piece, c) ==> !TriedBefore(c, r.value)
    ensures r.Some? ==> r.value.prefix == ""
  {
    if Braced(piece) then
      FirstCaptureIsFirst(piece);
      Some(FirstCapture(piece))
    else
      assert forall c :: !Candidate(piece, c) by {
        forall c ensures !Candidate(piece, c) {
          CandidateBraced(piece, c);
        }
      }
      None
  }

  /** The style named by group 1 (src/index.ts:244): `.` is label, `;` is matrix, anything else simple. */
  function StyleOf(prefix: string): Style
  {
    if prefix == "." then Label else if prefix == ";" then Matrix else Simple
  }

  /**
   * A segment that parsing can produce: a non-empty literal that is not
   * braced, or a simple-style parameter whose name is non-empty, matchable by
   * `.`, and does not end in a `*` that the star group would take.
   */
  predicate WellFormed(s: Segment)
  {
    match s
    case Literal(text) => text != "" && !Braced(text)
    case Param(name, style, explode) =>
      && style == Simple
      && name != ""
      && NoLineTerminator(name)
      && (explode || !(|name| >= 2 && name[|name| - 1] == '*'))
  }

  /** The piece of template text a segment stands for. */
  function RenderSegment(s: Segment): string
  {
    match s
    case Literal(text) => text
    case Param(name, style, explode) =>
      "{" + (match style case Simple => "" case Label => "." case Matrix => ";") + name + StarText(explode) + "}"
  }

  /**
   * One template piece. It is a parameter exactly when it is braced; a
   * literal keeps the piece verbatim; a parameter is always simple-style,
   * explodes exactly when its inner text has two or more characters and
   * ends in `*`, and is named by the inner text less that star.
   */
  function ParseSegment(piece: string): (s: Segment)
    ensures s.Param? <==> Braced(piece)
    ensures s.Literal? ==> s.text == piece
    ensures s.Param? ==> s.style == Simple
    ensures s.Param? ==> (s.explode <==> |Inner(piece)| >= 2 && Inner(piece)[|Inner(piece)| - 1] == '*')
    ensures s.Param? && s.explode ==> s.name == Inner(piece)[..|Inner(piece)| - 1]
    ensures s.Param? && !s.explode ==> s.name == Inner(piece)
  {
    match MatchBraces(piece)
    case None => Literal(piece)
    case Some(c) => Param(c.name, StyleOf(c.prefix), c.star)
  }

  /** Every non-empty piece parses to a well-formed segment that renders back to the piece. */
  lemma ParseSegmentRenders(piece: string)
    requires piece != ""
    ensures WellFormed(ParseSegment(piece))
    ensures RenderSegment(ParseSegment(piece)) == piece
  {
    var s := ParseSegment(piece);
    if s.Param? {
      var x := Inner(piece);
      assert piece == "{" + x + "}";
      if s.explode {
        assert x == s.name + "*";
      }
      assert forall i :: 0 <= i < |s.name| ==> s.name[i] == x[i];
    }
  }

  /** Parsing inverts rendering on well-formed segments, so no two of them share a text. */
  lemma RenderSegmentParses(s: Segment)
    requires WellFormed(s)
    ensures ParseSegment(RenderSegment(s)) == s
  {
    if s.Param? {
      var piece := RenderSegment(s);
      var x := s.name + StarText(s.explode);
      assert piece == "{" + x + "}";
      assert Inner(piece) == x;
      forall i | 0 <= i < |x|
        ensures !IsLineTerminator(x[i])
      {
        if i < |s.name| {
          assert x[i] == s.name[i];
        }
      }
      if s.explode {
        assert x[..|x| - 1] == s.name;
      }
    }
  }

  /** `parsePathTemplate`: one segment per non-empty `/`-piece, each rendering back to its piece. */
  function ParsePathTemplate(path: string): (t: seq<Segment>)
    ensures |t| == |PathPieces(path)|
    ensures forall i :: 0 <= i < |t| ==> WellFormed(t[i]) && RenderSegment(t[i]) == PathPieces(path)[i]
  {
    var pieces := PathPieces(path);
    assert forall i :: 0 <= i < |pieces| ==> WellFormed(ParseSegment(pieces[i])) && RenderSegment(ParseSegment(pieces[i])) == pieces[i] by {
      forall i | 0 <= i < |pieces| ensures WellFormed(ParseSegment(pieces[i])) && RenderSegment(ParseSegment(pieces[i])) == pieces[i] {
        ParseSegmentRenders(pieces[i]);
      }
    }
    seq(|pieces|, i requires 0 <= i < |pieces| => ParseSegment(pieces[i]))
  }

  /** A template written out in normal form: its segments rendered and joined by `/`. */
  function RenderTemplate(t: seq<Segment>): string
  {
    Join(seq(|t|, i requires 0 <= i < |t| => RenderSegment(t[i])), '/')
  }

  /** Parsing normalises a template to its pieces, and parsing the normal form again changes nothing. */
  lemma ParseRenderTemplate(path: string)
    ensures RenderTemplate(ParsePathTemplate(path)) == Join(PathPieces(path), '/')
    ensures ParsePathTemplate(RenderTemplate(ParsePathTemplate(path))) == ParsePathTemplate(path)
  {
    var t := ParsePathTemplate(path);
    var pieces := PathPieces(path);
    assert seq(|t|, i requires 0 <= i < |t| => RenderSegment(t[i])) == pieces;
    PathPiecesJoin(pieces);
    assert PathPieces(RenderTemplate(t)) == pieces;
  }

  /** Well-formed, slash-free segments survive rendering and parsing. */
  lemma RenderTemplateParses(t: seq<Segment>)
    requires forall i :: 0 <= i < |t| ==> WellFormed(t[i]) && '/' !in RenderSegment(t[i])
    ensures ParsePathTemplate(RenderTemplate(t)) == t
  {
    var pieces := seq(|t|, i requires 0 <= i < |t| => RenderSegment(t[i]));
    forall i | 0 <= i < |t|
      ensures pieces[i] != ""
      ensures ParseSegment(pieces[i]) == t[i]
    {
      RenderSegmentParses(t[i]);
    }
    PathPiecesJoin(pieces);
    var r := ParsePathTemplate(RenderTemplate(t));
    assert |r| == |t|;
    forall i | 0 <= i < |t|
      ensures r[i] == t[i]
    {
      ParseSegmentRenders(pieces[i]);
    }
  }
}
